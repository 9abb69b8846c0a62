/** The values that cross the reader interface. */
module Nfc {
  import opened Bytes

  datatype CardProtocol = Iso14443A | Iso14443B | IsoDep

  datatype Card = Card(uid: seq<byte>, protocol: CardProtocol, historicalBytes: seq<byte>)

  datatype ReaderError = Configuration | Transport | Protocol | TargetLost | Unsupported | Io

  type PollResult = Result<Option<Card>, ReaderError>

  type OffResult = Result<Unit, ReaderError>

  type ApduResult = Result<seq<byte>, ReaderError>
}
