/** The reader behind the bridge: a PN532, or any other reader at all, described by
    the answers it gives. */
module NfcReader {
  import opened Bytes
  import opened Nfc
  import Pn532Reader

  /** An arbitrary reader: the answers it still has to give. An exhausted script
      reports no card, a clean power-off and status word 9000. */
  datatype Script = Script(name: string, polls: seq<PollResult>, offs: seq<OffResult>, exchanges: seq<ApduResult>)

  datatype Reader = Scripted(script: Script) | Uart(pn532: Pn532Reader.Pn532)

  const DUMMY := "dummy"
  const PN532_UART := "pn532-uart"

  function Name(r: Reader): string {
    match r case Scripted(s) => s.name case Uart(_) => PN532_UART
  }

  function Poll(r: Reader): After<PollResult, Reader> {
    match r
    case Scripted(s) =>
      if s.polls == [] then After(Success(None), r)
      else After(s.polls[0], Scripted(s.(polls := s.polls[1..])))
    case Uart(p) => var a := Pn532Reader.Poll(p); After(a.result, Uart(a.next))
  }

  function PowerOff(r: Reader): After<OffResult, Reader> {
    match r
    case Scripted(s) =>
      if s.offs == [] then After(Success(Unit), r)
      else After(s.offs[0], Scripted(s.(offs := s.offs[1..])))
    case Uart(p) => var a := Pn532Reader.PowerOff(p); After(a.result, Uart(a.next))
  }

  function Exchange(r: Reader, apdu: seq<byte>): After<ApduResult, Reader> {
    match r
    case Scripted(s) =>
      if s.exchanges == [] then After(Success([0x90, 0x00]), r)
      else After(s.exchanges[0], Scripted(s.(exchanges := s.exchanges[1..])))
    case Uart(p) => var a := Pn532Reader.Exchange(p, apdu); After(a.result, Uart(a.next))
  }

  class ScriptedReader {
    var script: Script

    constructor (script: Script)
      ensures this.script == script
    {
      this.script := script;
    }

    method PollCard() returns (r: PollResult)
      modifies this
      ensures After(r, Scripted(script)) == Poll(Scripted(old(script)))
    {
      if script.polls == [] {
        return Success(None);
      }
      r := script.polls[0];
      script := script.(polls := script.polls[1..]);
    }

    method TurnOff() returns (r: OffResult)
      modifies this
      ensures After(r, Scripted(script)) == PowerOff(Scripted(old(script)))
    {
      if script.offs == [] {
        return Success(Unit);
      }
      r := script.offs[0];
      script := script.(offs := script.offs[1..]);
    }

    method ExchangeApdu(apdu: seq<byte>) returns (r: ApduResult)
      modifies this
      ensures After(r, Scripted(script)) == Exchange(Scripted(old(script)), apdu)
    {
      if script.exchanges == [] {
        return Success([0x90, 0x00]);
      }
      r := script.exchanges[0];
      script := script.(exchanges := script.exchanges[1..]);
    }
  }

  /** A boxed reader, dispatching to the object inside. */
  datatype BoxedReader =
    | ScriptedBox(scripted: ScriptedReader)
    | UartBox(uart: Pn532Reader.Pn532UartReader)
  {
    function Object(): object {
      match this case ScriptedBox(s) => s case UartBox(u) => u
    }

    ghost function Model(): Reader
      reads Object()
    {
      match this case ScriptedBox(s) => Scripted(s.script) case UartBox(u) => Uart(u.Model())
    }

    method Capabilities() returns (name: string)
      ensures name == Name(Model())
    {
      match this
      case ScriptedBox(s) => name := s.script.name;
      case UartBox(u) => name := PN532_UART;
    }

    method PollCard() returns (r: PollResult)
      modifies Object()
      ensures After(r, Model()) == Poll(old(Model()))
    {
      match this
      case ScriptedBox(s) => r := s.PollCard();
      case UartBox(u) => r := u.PollCard();
    }

    method TurnOff() returns (r: OffResult)
      modifies Object()
      ensures After(r, Model()) == PowerOff(old(Model()))
    {
      match this
      case ScriptedBox(s) => r := s.TurnOff();
      case UartBox(u) => r := u.TurnOff();
    }

    method ExchangeApdu(apdu: seq<byte>) returns (r: ApduResult)
      modifies Object()
      ensures After(r, Model()) == Exchange(old(Model()), apdu)
    {
      match this
      case ScriptedBox(s) => r := s.ExchangeApdu(apdu);
      case UartBox(u) => r := u.ExchangeApdu(apdu);
    }
  }
}
