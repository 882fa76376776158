/**
 * The RFID2 driver (Rfid2.cpp): `rfid2WriteText` frames a text as one NDEF
 * text record and writes it page by page from page 4; `rfid2ReadText` reads
 * 16-byte bursts from page 4 until the TLV length is covered or its 64-byte
 * buffer is full, then decodes the record. The card is the page store of
 * module Mfrc522; each method is proved against the specification functions
 * of module NdefText and a predicate describing the calls it makes.
 */
module Rfid2 {
  import opened Bytes
  import opened NdefText
  import opened Mfrc522

  /*************************** call traces ***************************/

  /** The successful page writes of the first `k` chunks of `frame`: chunk i to page 4 + i. */
  function WriteLog(frame: seq<byte>, k: nat): seq<Event> {
    seq(k, i requires 0 <= i < k => PageWrite(FirstPage + i, Chunk(frame, i), true))
  }

  /** The successful bursts of the first `k` reads: burst i at page 4 + 4i. */
  function ReadLog(k: nat): seq<Event> {
    seq(k, i => BurstRead(FirstPage + 4 * i, true))
  }

  /** A session log in which the card answered, `pre` and then `last` were
      issued, and the session was released. */
  function SessionLog(pre: seq<Event>, last: seq<Event>): seq<Event> {
    [Detect(true)] + pre + last + [Halt, StopCrypto]
  }

  /** The write of chunk `k` was refused after chunks 0 .. k-1 were written. */
  ghost predicate WriteFailedAt(text: seq<byte>, k: nat, mem0: seq<byte>, log0: seq<Event>,
                                log: seq<Event>, mem: seq<byte>, r: Outcome)
    requires |text| <= MaxTextLen
  {
    var f := Frame(text);
    && k < PageCount(|f|)
    && PageSize * (FirstPage + k) <= |mem0|
    && log == log0 + SessionLog(WriteLog(f, k), [PageWrite(FirstPage + k, Chunk(f, k), false)])
    && mem == Stored(mem0, f, k)
    && r == Fail(Transfer)
  }

  /** The calls one `WriteText` on an initialised driver makes, starting from
      log `log0` and memory `mem0` and ending with `log`, `mem` and result `r`. */
  ghost predicate WriteSession(text: seq<byte>, mem0: seq<byte>, log0: seq<Event>,
                               log: seq<Event>, mem: seq<byte>, r: Outcome)
  {
    || (log == log0 + [Detect(false)] && mem == mem0 && r == Fail(Timeout))
    || (|text| > MaxTextLen && log == log0 + [Detect(true), Halt] && mem == mem0 && r == Fail(TooLong))
    || (|text| <= MaxTextLen && exists k :: WriteFailedAt(text, k, mem0, log0, log, mem, r))
    || (&& |text| <= MaxTextLen
        && var f := Frame(text);
        && PageSize * (FirstPage + PageCount(|f|)) <= |mem0|
        && log == log0 + SessionLog(WriteLog(f, PageCount(|f|)), [])
        && mem == Stored(mem0, f, PageCount(|f|))
        && r == Pass)
  }

  /** Burst `k` (at page 4 + 4k) was refused after bursts 0 .. k-1 succeeded;
      it was issued because the bytes gathered so far did not cover the message. */
  ghost predicate ReadFailedAt(k: nat, mem: seq<byte>, log0: seq<Event>, log: seq<Event>,
                               r: Result<seq<byte>>)
  {
    && log == log0 + SessionLog(ReadLog(k), [BurstRead(FirstPage + 4 * k, false)])
    && (k == 0 || (PageSize * FirstPage + BurstSize <= |mem|
                   && BurstSize * k < ReadLength(Needed(mem[PageSize * FirstPage + 1]))))
    && r == Err(Transfer)
  }

  /** The calls one `ReadText` on an initialised driver makes against memory `mem`. */
  ghost predicate ReadSession(mem: seq<byte>, log0: seq<Event>, log: seq<Event>, r: Result<seq<byte>>)
  {
    || (log == log0 + [Detect(false)] && r == Err(Timeout))
    || (exists k :: ReadFailedAt(k, mem, log0, log, r))
    || (&& PageSize * FirstPage + BurstSize <= |mem|
        && var len := ReadLength(Needed(mem[PageSize * FirstPage + 1]));
        && PageSize * FirstPage + len <= |mem|
        && log == log0 + SessionLog(ReadLog(len / BurstSize), [])
        && r == ReadBack(mem))
  }

  /** The calls a session appends one by one make up its session log. */
  lemma SessionAppended(log0: seq<Event>, pre: seq<Event>, last: seq<Event>)
    ensures log0 + [Detect(true)] + pre + last + [Halt] + [StopCrypto] == log0 + SessionLog(pre, last)
  {
  }

  /** The read session whose burst `k` was refused after `k` bursts. */
  lemma FailedReadSession(k: nat, mem: seq<byte>, log0: seq<Event>, log: seq<Event>)
    requires k == 0 || (PageSize * FirstPage + BurstSize <= |mem|
                        && BurstSize * k < ReadLength(Needed(mem[PageSize * FirstPage + 1])))
    requires log == log0 + [Detect(true)] + ReadLog(k) + [BurstRead(FirstPage + 4 * k, false)]
                    + [Halt] + [StopCrypto]
    ensures ReadSession(mem, log0, log, Err(Transfer))
  {
    SessionAppended(log0, ReadLog(k), [BurstRead(FirstPage + 4 * k, false)]);
    assert ReadFailedAt(k, mem, log0, log, Err(Transfer));
  }

  /** The read session that gathered every burst it asked for and decoded them. */
  lemma CompletedReadSession(mem: seq<byte>, log0: seq<Event>, log: seq<Event>,
                             readBytes: nat, gathered: seq<byte>, r: Result<seq<byte>>)
    requires PageSize * FirstPage + BurstSize <= |mem|
    requires readBytes == ReadLength(Needed(mem[PageSize * FirstPage + 1]))
    requires PageSize * FirstPage + readBytes <= |mem|
    requires |gathered| == readBytes
    requires forall m :: 0 <= m < readBytes ==> gathered[m] == mem[PageSize * FirstPage + m]
    requires log == log0 + [Detect(true)] + ReadLog(readBytes / BurstSize) + [Halt] + [StopCrypto]
    requires r == DecodeText(gathered)
    ensures ReadSession(mem, log0, log, r)
  {
    assert gathered == mem[PageSize * FirstPage .. PageSize * FirstPage + readBytes];
    SessionAppended(log0, ReadLog(readBytes / BurstSize), []);
    assert log == log0 + [Detect(true)] + ReadLog(readBytes / BurstSize) + [] + [Halt] + [StopCrypto];
  }

  /** The write session that got past the length check and wrote `k` chunks,
      the next one refused unless `ok`. */
  lemma WrittenSession(text: seq<byte>, k: nat, ok: bool, mem0: seq<byte>, log0: seq<Event>,
                       log: seq<Event>, mem: seq<byte>)
    requires |text| <= MaxTextLen
    requires k <= PageCount(|text| + 10) && (ok <==> k == PageCount(|text| + 10))
    requires PageSize * (FirstPage + k) <= |mem0| && mem == Stored(mem0, Frame(text), k)
    requires log == log0 + [Detect(true)] + WriteLog(Frame(text), k)
                    + (if ok then [] else [PageWrite(FirstPage + k, Chunk(Frame(text), k), false)])
                    + [Halt] + [StopCrypto]
    ensures WriteSession(text, mem0, log0, log, mem, if ok then Pass else Fail(Transfer))
  {
    var f := Frame(text);
    var last := if ok then [] else [PageWrite(FirstPage + k, Chunk(f, k), false)];
    SessionAppended(log0, WriteLog(f, k), last);
    if !ok {
      assert WriteFailedAt(text, k, mem0, log0, log, mem, Fail(Transfer));
    }
  }

  lemma WriteLogStep(frame: seq<byte>, k: nat)
    ensures WriteLog(frame, k + 1) == WriteLog(frame, k) + [PageWrite(FirstPage + k, Chunk(frame, k), true)]
  {
  }

  /** A successful write of chunk `k` to page 4 + k takes the memory after
      `k` chunks to the memory after `k + 1`. */
  lemma StoredAfterWrite(mem0: seq<byte>, f: seq<byte>, k: nat, page: int,
                         before: seq<byte>, after: seq<byte>)
    requires page == FirstPage + k && 4 * page + 4 <= |mem0|
    requires before == Stored(mem0, f, k)
    requires after == before[..4 * page] + Chunk(f, k) + before[4 * page + 4..]
    ensures after == Stored(mem0, f, k + 1)
  {
    StoredStep(mem0, f, k);
  }

  lemma ReadLogStep(k: nat)
    ensures ReadLog(k + 1) == ReadLog(k) + [BurstRead(FirstPage + 4 * k, true)]
  {
  }

  /** The calls of a session in which a card answered: the answer first, then
      the calls between, then PICC_HaltA and PCD_StopCrypto1 last. */
  predicate Released(ev: seq<Event>) {
    |ev| >= 3 && ev[0] == Detect(true) && ev[|ev| - 2..] == [Halt, StopCrypto]
  }

  /** Two logs that extend the same prefix are equal in what follows it. */
  lemma DropLogPrefix(log0: seq<Event>, ev: seq<Event>, ev': seq<Event>)
    requires log0 + ev == log0 + ev'
    ensures ev == ev'
  {
    assert ev == (log0 + ev)[|log0|..];
    assert ev' == (log0 + ev')[|log0|..];
  }

  /** Where each call of a session log sits. */
  lemma SessionLogAt(pre: seq<Event>, last: seq<Event>)
    ensures var ev := SessionLog(pre, last);
            && |ev| == |pre| + |last| + 3
            && Released(ev)
            && (forall i :: 0 <= i < |pre| ==> ev[1 + i] == pre[i])
            && (forall i :: 0 <= i < |last| ==> ev[1 + |pre| + i] == last[i])
  {
  }

  /** The calls of a write session that wrote `k` chunks of `f` and then, if
      `failed`, had chunk `k` refused. */
  lemma WriteCalls(f: seq<byte>, k: nat, failed: bool, ev: seq<Event>)
    requires ev == SessionLog(WriteLog(f, k), if failed then [PageWrite(FirstPage + k, Chunk(f, k), false)] else [])
    ensures Released(ev) && |ev| == k + 3 + (if failed then 1 else 0)
    ensures forall i :: 1 <= i < |ev| - 2 ==>
              ev[i] == PageWrite(FirstPage + i - 1, Chunk(f, i - 1), !failed || i < |ev| - 3)
  {
    var last := if failed then [PageWrite(FirstPage + k, Chunk(f, k), false)] else [];
    SessionLogAt(WriteLog(f, k), last);
    forall i | 1 <= i < |ev| - 2
      ensures ev[i] == PageWrite(FirstPage + i - 1, Chunk(f, i - 1), !failed || i < |ev| - 3)
    {
      if i <= k {
        assert ev[1 + (i - 1)] == WriteLog(f, k)[i - 1];
      } else {
        assert ev[1 + k + 0] == last[0];
      }
    }
  }

  /** The calls of a read session that read `k` bursts and then, if `failed`,
      had burst `k` refused. */
  lemma ReadCalls(k: nat, failed: bool, ev: seq<Event>)
    requires ev == SessionLog(ReadLog(k), if failed then [BurstRead(FirstPage + 4 * k, false)] else [])
    ensures Released(ev) && |ev| == k + 3 + (if failed then 1 else 0)
    ensures forall i :: 1 <= i < |ev| - 2 ==>
              ev[i] == BurstRead(FirstPage + 4 * (i - 1), !failed || i < |ev| - 3)
  {
    var last := if failed then [BurstRead(FirstPage + 4 * k, false)] else [];
    SessionLogAt(ReadLog(k), last);
    forall i | 1 <= i < |ev| - 2
      ensures ev[i] == BurstRead(FirstPage + 4 * (i - 1), !failed || i < |ev| - 3)
    {
      if i <= k {
        assert ev[1 + (i - 1)] == ReadLog(k)[i - 1];
      } else {
        assert ev[1 + k + 0] == last[0];
      }
    }
  }

  /** What one `WriteText` session issues to the card (the calls `ev` it
      appends to the log). A timeout issues nothing more; a too-long text only
      PICC_HaltA. Otherwise the session is released by PICC_HaltA and
      PCD_StopCrypto1 after nothing but page writes: chunk i of the frame to
      page 4 + i, all ceil(totalLen / 4) of them succeeding on success, and
      the last one refused on a transfer error. */
  lemma WriteSessionCalls(text: seq<byte>, mem0: seq<byte>, log0: seq<Event>,
                          ev: seq<Event>, mem: seq<byte>, r: Outcome)
    requires WriteSession(text, mem0, log0, log0 + ev, mem, r)
    ensures r in {Fail(Timeout), Fail(TooLong), Fail(Transfer), Pass}
    ensures r == Fail(Timeout) <==> ev == [Detect(false)]
    ensures r == Fail(TooLong) <==> |text| > MaxTextLen && ev == [Detect(true), Halt]
    ensures r == Pass || r == Fail(Transfer) ==>
              && |text| <= MaxTextLen
              && Released(ev)
              && |ev| - 3 <= PageCount(|text| + 10)
              && forall i :: 1 <= i < |ev| - 2 ==>
                   ev[i].PageWrite? && ev[i].page == FirstPage + i - 1 && ev[i].data == Chunk(Frame(text), i - 1)
                   && (ev[i].ok <==> r == Pass || i < |ev| - 3)
    ensures r == Pass ==> |ev| - 3 == PageCount(|text| + 10)
    ensures r == Fail(Transfer) ==> |ev| >= 4
  {
    var log := log0 + ev;
    assert ev == log[|log0|..];
    if log == log0 + [Detect(false)] {
      assert ev == [Detect(false)];
    } else if |text| > MaxTextLen {
      assert ev == [Detect(true), Halt];
    } else if r == Pass {
      var f := Frame(text);
      DropLogPrefix(log0, ev, SessionLog(WriteLog(f, PageCount(|f|)), []));
      WriteCalls(f, PageCount(|f|), false, ev);
    } else {
      var f := Frame(text);
      var k: nat :| WriteFailedAt(text, k, mem0, log0, log, mem, r);
      DropLogPrefix(log0, ev, SessionLog(WriteLog(f, k), [PageWrite(FirstPage + k, Chunk(f, k), false)]));
      WriteCalls(f, k, true, ev);
    }
  }

  /** What one `ReadText` session issues to the card. A timeout issues
      nothing more. Otherwise the session is released by PICC_HaltA and
      PCD_StopCrypto1 after nothing but bursts: burst i at page 4 + 4i. With
      every burst succeeding there are ReadLength / 16 of them (the first
      alone when the message fits in 16 bytes); on a transfer error the last
      burst was refused, and it was issued only because the message was not
      yet covered. */
  lemma ReadSessionCalls(mem: seq<byte>, log0: seq<Event>, ev: seq<Event>, r: Result<seq<byte>>)
    requires ReadSession(mem, log0, log0 + ev, r)
    ensures r == Err(Timeout) <==> ev == [Detect(false)]
    ensures r != Err(Timeout) ==>
              && Released(ev)
              && forall i :: 1 <= i < |ev| - 2 ==>
                   ev[i].BurstRead? && ev[i].page == FirstPage + 4 * (i - 1)
                   && (ev[i].ok <==> r != Err(Transfer) || i < |ev| - 3)
    ensures r != Err(Timeout) && r != Err(Transfer) ==>
              && PageSize * FirstPage + BurstSize <= |mem|
              && var needed := Needed(mem[PageSize * FirstPage + 1]);
              && |ev| - 3 == ReadLength(needed) / BurstSize
              && (needed <= BurstSize ==> |ev| - 3 == 1)
    ensures r == Err(Transfer) ==> |ev| >= 4
    ensures r == Err(Transfer) ==>
              |ev| == 4 || (PageSize * FirstPage + BurstSize <= |mem|
                            && BurstSize * (|ev| - 4) < ReadLength(Needed(mem[PageSize * FirstPage + 1])))
  {
    var log := log0 + ev;
    assert ev == log[|log0|..];
    if log == log0 + [Detect(false)] {
      assert ev == [Detect(false)];
    } else if exists k: nat :: ReadFailedAt(k, mem, log0, log, r) {
      var k: nat :| ReadFailedAt(k, mem, log0, log, r);
      DropLogPrefix(log0, ev, SessionLog(ReadLog(k), [BurstRead(FirstPage + 4 * k, false)]));
      ReadCalls(k, true, ev);
    } else {
      var len := ReadLength(Needed(mem[PageSize * FirstPage + 1]));
      DropLogPrefix(log0, ev, SessionLog(ReadLog(len / BurstSize), []));
      ReadCalls(len / BurstSize, false, ev);
    }
  }

  /** A successful `WriteText` session followed by a `ReadText` session that
      got every burst it asked for returns the text when it is at most 55
      bytes, and reports truncation for a longer text. */
  lemma WrittenTextReadsBack(text: seq<byte>, mem0: seq<byte>, log0: seq<Event>, log: seq<Event>,
                             mem: seq<byte>, log1: seq<Event>, r: Result<seq<byte>>)
    requires WriteSession(text, mem0, log0, log, mem, Pass)
    requires ReadSession(mem, log, log1, r) && r != Err(Timeout) && r != Err(Transfer)
    ensures r == if |text| <= 55 then Ok(text) else Err(Truncated)
  {
    var f := Frame(text);
    assert mem == Stored(mem0, f, PageCount(|f|));
    StoredHoldsFrame(mem0, f);
    assert mem[PageSize * FirstPage + 1] == f[1];
    WriteThenRead(text, mem0);
  }

  /*************************** the driver ***************************/

  /** Fills `ndef` with the frame for `text` (Rfid2.cpp, lines 51-66). */
  method BuildFrame(text: seq<byte>) returns (ndef: array<byte>)
    requires |text| <= MaxTextLen
    ensures fresh(ndef) && ndef[..] == Frame(text)
  {
    var textLen := |text|;
    var payloadLen := textLen + 3;     // status + language + text
    var recordLen := payloadLen + 4;   // header, type length, payload length, type
    var totalLen := recordLen + 3;     // TLV tag, TLV length, terminator
    ndef := new byte[totalLen];
    ndef[0] := TlvNdef;
    ndef[1] := recordLen as byte;
    ndef[2] := RecordHeader;
    ndef[3] := TypeLength;
    ndef[4] := payloadLen as byte;
    ndef[5] := TextType;
    ndef[6] := StatusUtf8En;
    ndef[7] := LangE;
    ndef[8] := LangN;
    for i := 0 to textLen
      invariant ndef[..9] == Frame(text)[..9]
      invariant forall m :: 0 <= m < i ==> ndef[9 + m] == text[m]
    {
      ndef[9 + i] := text[i];
    }
    ndef[2 + recordLen] := TlvTerminator;
    assert ndef[..] == Frame(text);
  }

  /** Fills `buffer` with chunk `k` of the frame in `ndef`: byte `4k + j`,
      or 0x00 past the end of the frame (lines 71-74). */
  method FillChunk(ndef: array<byte>, k: nat, buffer: array<byte>)
    requires buffer.Length == 4 && buffer != ndef
    modifies buffer
    ensures buffer[..] == Chunk(ndef[..], k)
  {
    var i := 4 * k;
    var j := 0;
    while j < 4
      invariant 0 <= j <= 4
      invariant forall m :: 0 <= m < j ==> buffer[m] == PaddedByte(ndef[..], i + m)
    {
      var idx := i + j;
      buffer[j] := if idx < ndef.Length then ndef[idx] else 0;
      j := j + 1;
    }
  }

  /** Validates the gathered bytes `data[..readBytes]` and copies out the text
      one byte at a time (lines 138-158, with the bound check of `DecodeText`). */
  method ParseText(data: array<byte>, readBytes: nat) returns (r: Result<seq<byte>>)
    requires data.Length == DataCapacity && BurstSize <= readBytes <= data.Length
    ensures r == DecodeText(data[..readBytes])
  {
    ghost var gathered := data[..readBytes];
    if data[0] != TlvNdef || data[2] != RecordHeader || data[3] != TypeLength || data[5] != TextType {
      return Err(NoNdef);
    }
    var payloadLen := data[4] as int;
    var langLen := LangLen(data[6]);
    if payloadLen < 1 + langLen {
      return Err(BadPayload);
    }
    var textStart := 7 + langLen;
    var textLen := payloadLen - 1 - langLen;
    if textStart + textLen > readBytes {
      return Err(Truncated);
    }
    var text: seq<byte> := [];
    var i := 0;
    while i < textLen
      invariant 0 <= i <= textLen
      invariant text == gathered[textStart .. textStart + i]
    {
      assert data[textStart + i] == gathered[textStart + i];
      assert gathered[textStart .. textStart + i + 1] == gathered[textStart .. textStart + i] + [gathered[textStart + i]];
      text := text + [data[textStart + i]];
      i := i + 1;
    }
    return Ok(text);
  }

  class Driver {
    var initialized: bool
    const card: Card

    constructor (card: Card)
      ensures !initialized && this.card == card
    {
      initialized := false;
      this.card := card;
    }

    /** rfid2Begin: initialises the reader; the library reports no error. */
    method Begin() returns (ok: bool)
      modifies this, card`log
      ensures initialized && ok
      ensures card.log == old(card.log) + [Init]
    {
      card.PcdInit();
      initialized := true;
      return true;
    }

    /** rfid2WriteText. */
    method WriteText(text: seq<byte>) returns (r: Outcome)
      requires PageSize * FirstPage <= |card.memory|
      modifies card
      ensures !old(initialized) ==> r == Fail(NotInit) && card.log == old(card.log) && card.memory == old(card.memory)
      ensures old(initialized) ==> WriteSession(text, old(card.memory), old(card.log), card.log, card.memory, r)
    {
      if !initialized {
        return Fail(NotInit);
      }
      ghost var mem0, log0 := card.memory, card.log;
      var present := card.WaitForCard();
      if !present {
        return Fail(Timeout);
      }
      var textLen := |text|;
      if textLen > MaxTextLen {
        card.HaltA();
        return Fail(TooLong);
      }
      var ndef := BuildFrame(text);
      var ok, k := WritePages(ndef);
      card.HaltA();
      card.StopCrypto1();
      WrittenSession(text, k, ok, mem0, log0, card.log, card.memory);
      if !ok {
        return Fail(Transfer);
      }
      return Pass;
    }

    /** The page-write loop of rfid2WriteText (lines 68-84): chunk `k` of the
        frame, zero-padded, goes to page 4 + k; the first refused write ends
        the loop. Returns whether every write succeeded and, as `k`, the
        number of chunks written before the loop ended. */
    method WritePages(ndef: array<byte>) returns (ok: bool, ghost k: nat)
      requires PageSize * FirstPage <= |card.memory|
      modifies card
      ensures k <= PageCount(ndef.Length) && (ok <==> k == PageCount(ndef.Length))
      ensures PageSize * (FirstPage + k) <= |old(card.memory)|
      ensures card.memory == Stored(old(card.memory), ndef[..], k)
      ensures card.log == old(card.log) + WriteLog(ndef[..], k)
                          + if ok then [] else [PageWrite(FirstPage + k, Chunk(ndef[..], k), false)]
    {
      ghost var mem0, log0, f := card.memory, card.log, ndef[..];
      var totalLen := ndef.Length;
      var buffer := new byte[4];
      var page := FirstPage;
      var i := 0;
      while i < totalLen
        invariant 0 <= i && i == 4 * (page - FirstPage) && FirstPage <= page
        invariant page - FirstPage <= PageCount(totalLen)
        invariant 4 * page <= |mem0|
        invariant card.log == log0 + WriteLog(f, page - FirstPage)
        invariant card.memory == Stored(mem0, f, page - FirstPage)
        invariant ndef[..] == f
        modifies card, buffer
      {
        ok := WriteChunk(ndef, page - FirstPage, buffer, f, mem0, log0);
        if !ok {
          k := page - FirstPage;
          return;
        }
        page := page + 1;
        i := i + 4;
      }
      k := page - FirstPage;
      ok := true;
    }

    /** One pass of the page-write loop (lines 71-83): fills `buffer` with
        chunk `k` of the frame `f` held in `ndef` and writes it to page 4 + k. */
    method WriteChunk(ndef: array<byte>, k: nat, buffer: array<byte>, ghost f: seq<byte>,
                      ghost mem0: seq<byte>, ghost log0: seq<Event>) returns (ok: bool)
      requires buffer.Length == 4 && buffer != ndef && ndef[..] == f
      requires PageSize * (FirstPage + k) <= |mem0|
      requires card.memory == Stored(mem0, f, k)
      requires card.log == log0 + WriteLog(f, k)
      modifies card, buffer
      ensures ok ==> && PageSize * (FirstPage + k + 1) <= |mem0|
                     && card.memory == Stored(mem0, f, k + 1)
                     && card.log == log0 + WriteLog(f, k + 1)
      ensures !ok ==> && card.memory == Stored(mem0, f, k)
                      && card.log == log0 + WriteLog(f, k) + [PageWrite(FirstPage + k, Chunk(f, k), false)]
    {
      FillChunk(ndef, k, buffer);
      ghost var before := card.memory;
      ok := card.UltralightWrite(FirstPage + k, buffer);
      if ok {
        StoredAfterWrite(mem0, f, k, FirstPage + k, before, card.memory);
        WriteLogStep(f, k);
      }
    }

    /** rfid2ReadText. */
    method ReadText() returns (r: Result<seq<byte>>)
      modifies card`log
      ensures !old(initialized) ==> r == Err(NotInit) && card.log == old(card.log)
      ensures old(initialized) ==> ReadSession(card.memory, old(card.log), card.log, r)
    {
      if !initialized {
        return Err(NotInit);
      }
      ghost var mem, log0 := card.memory, card.log;
      var present := card.WaitForCard();
      if !present {
        return Err(Timeout);
      }
      var buffer := new byte[18];
      var ok := card.Read(FirstPage, buffer);
      if !ok {
        card.HaltA();
        card.StopCrypto1();
        FailedReadSession(0, mem, log0, card.log);
        return Err(Transfer);
      }
      var data := new byte[DataCapacity];
      forall j | 0 <= j < BurstSize {
        data[j] := buffer[j];
      }
      var needed := Needed(buffer[1]);
      assert buffer[1] == mem[PageSize * FirstPage + 1];
      var readBytes;
      ok, readBytes := ReadBursts(data, buffer, needed, log0 + [Detect(true)]);
      ghost var gathered := data[..readBytes];
      assert forall m :: 0 <= m < readBytes ==> gathered[m] == mem[PageSize * FirstPage + m];
      card.HaltA();
      card.StopCrypto1();
      if !ok {
        FailedReadSession(readBytes / BurstSize, mem, log0, card.log);
        return Err(Transfer);
      }
      r := ParseText(data, readBytes);
      assert data[..readBytes] == gathered;
      CompletedReadSession(mem, log0, card.log, readBytes, gathered, r);
    }

    /** The burst loop of rfid2ReadText (lines 117-133): with the first burst
        already in `data[..16]`, reads 16 bytes at pages 8, 12, ... into `data`
        until `needed` bytes are gathered or `data` is full; a refused read
        ends the loop. */
    method ReadBursts(data: array<byte>, buffer: array<byte>, needed: nat, ghost prefix: seq<Event>)
      returns (ok: bool, readBytes: nat)
      requires data.Length == DataCapacity && buffer.Length == 18 && data != buffer
      requires PageSize * FirstPage + BurstSize <= |card.memory|
      requires forall m :: 0 <= m < BurstSize ==> data[m] == card.memory[PageSize * FirstPage + m]
      requires card.log == prefix + ReadLog(1)
      modifies card`log, data, buffer
      ensures readBytes % BurstSize == 0 && BurstSize <= readBytes
      ensures ok ==> readBytes == ReadLength(needed)
      ensures !ok ==> readBytes < ReadLength(needed)
      ensures PageSize * FirstPage + readBytes <= |card.memory|
      ensures forall m :: 0 <= m < readBytes ==> data[m] == card.memory[PageSize * FirstPage + m]
      ensures ok ==> card.log == prefix + ReadLog(readBytes / BurstSize)
      ensures !ok ==> card.log == prefix + ReadLog(readBytes / BurstSize) + [BurstRead(FirstPage + readBytes / 4, false)]
    {
      ghost var mem := card.memory;
      ghost var bursts: nat := 1;
      readBytes := BurstSize;
      var page := 8;
      while readBytes < needed && readBytes < data.Length
        invariant 1 <= bursts && readBytes == 16 * bursts <= DataCapacity
        invariant page == FirstPage + 4 * bursts
        invariant 16 + readBytes <= |mem|
        invariant Accumulated(readBytes, needed) == ReadLength(needed)
        invariant forall m :: 0 <= m < readBytes ==> data[m] == mem[16 + m]
        invariant card.log == prefix + ReadLog(bursts)
        modifies card`log, buffer, data
        decreases DataCapacity - readBytes
      {
        ok := card.Read(page, buffer);
        if !ok {
          assert readBytes / BurstSize == bursts;
          return;
        }
        assert forall j :: 0 <= j < BurstSize ==> buffer[j] == mem[16 + readBytes + j] by {
          forall j | 0 <= j < BurstSize ensures buffer[j] == mem[16 + readBytes + j] {
            assert buffer[..16][j] == buffer[j];
          }
        }
        forall j | 0 <= j < BurstSize {
          data[readBytes + j] := buffer[j];
        }
        ReadLogStep(bursts);
        bursts := bursts + 1;
        readBytes := readBytes + BurstSize;
        page := page + 4;
      }
      assert readBytes / BurstSize == bursts;
      ok := true;
    }
  }
}
