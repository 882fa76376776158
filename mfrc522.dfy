/**
 * The MFRC522 reader and the tag in front of it, seen by the RFID2 driver as
 * a page store: 4-byte page writes, 16-byte burst reads, a presence wait
 * and the halt/stop calls that end a session. Each call succeeds or fails
 * nondeterministically (radio errors); the ghost `log` records every call in
 * order, with its outcome, so that the driver's contracts can speak of the
 * pages it touched and the sessions it released.
 */
module Mfrc522 {
  import opened Bytes

  /** One call into the card library, with its outcome. */
  datatype Event =
    | Init                                            // PCD_Init
    | Detect(present: bool)                           // waitForCard
    | PageWrite(page: int, data: seq<byte>, ok: bool) // MIFARE_Ultralight_Write
    | BurstRead(page: int, ok: bool)                  // MIFARE_Read
    | Halt                                            // PICC_HaltA
    | StopCrypto                                      // PCD_StopCrypto1

  class Card {
    /** Tag memory from byte address 0 (page p holds bytes 4p .. 4p+3). */
    var memory: seq<byte>
    ghost var log: seq<Event>

    constructor (contents: seq<byte>)
      ensures memory == contents && log == []
    {
      memory := contents;
      log := [];
    }

    method PcdInit()
      modifies this`log
      ensures log == old(log) + [Init]
    {
      log := log + [Init];
    }

    /** Polls for a new card until one answers or 3000 ms pass. */
    method WaitForCard() returns (present: bool)
      modifies this`log
      ensures log == old(log) + [Detect(present)]
    {
      present :| true;
      log := log + [Detect(present)];
    }

    /** Writes the four bytes of `buffer` to page `page`. A page outside the
        memory is refused; a refused write leaves the memory as it was. */
    method UltralightWrite(page: int, buffer: array<byte>) returns (ok: bool)
      requires buffer.Length == 4
      modifies this
      ensures ok ==> 0 <= 4 * page && 4 * page + 4 <= |old(memory)|
      ensures memory == if ok then old(memory)[..4 * page] + buffer[..] + old(memory)[4 * page + 4..]
                        else old(memory)
      ensures log == old(log) + [PageWrite(page, buffer[..], ok)]
    {
      ok :| true;
      ok := ok && 0 <= 4 * page && 4 * page + 4 <= |memory|;
      if ok {
        memory := memory[..4 * page] + buffer[..] + memory[4 * page + 4..];
      }
      log := log + [PageWrite(page, buffer[..], ok)];
    }

    /** Reads the 16 bytes of pages `page` .. `page + 3` into `buffer[..16]`;
        the two bytes after them (the CRC) are left unspecified. */
    method Read(page: int, buffer: array<byte>) returns (ok: bool)
      requires buffer.Length == 18
      modifies this`log, buffer
      ensures ok ==> 0 <= 4 * page && 4 * page + 16 <= |memory|
      ensures ok ==> buffer[..16] == memory[4 * page .. 4 * page + 16]
      ensures log == old(log) + [BurstRead(page, ok)]
    {
      ok :| true;
      ok := ok && 0 <= 4 * page && 4 * page + 16 <= |memory|;
      if ok {
        forall j | 0 <= j < 16 {
          buffer[j] := memory[4 * page + j];
        }
      }
      log := log + [BurstRead(page, ok)];
    }

    method HaltA()
      modifies this`log
      ensures log == old(log) + [Halt]
    {
      log := log + [Halt];
    }

    method StopCrypto1()
      modifies this`log
      ensures log == old(log) + [StopCrypto]
    {
      log := log + [StopCrypto];
    }
  }
}
