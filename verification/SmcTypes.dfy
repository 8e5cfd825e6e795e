/** The SMC as the daemon sees it: requests, replies, keys and errors. The kernel is an arbitrary function of everything
    asked so far, so every theorem quantifies over all of its behaviours. */
module SmcTypes {
  import opened Floats

  datatype Result<+T> = Ok(value: T) | Err(error: SmcError)

  type Byte = b: int | 0 <= b < 256

  type Payload = s: seq<Byte> | |s| == 32 witness seq(32, _ => 0)

  datatype KernelReturn = KernSuccess | KernBusy | KernTimeout | KernOther(code: int)

  datatype Request =
    | GetKeyInfo(key: nat)
    | ReadKey(key: nat, size: nat, typ: nat)
    | WriteKey(key: nat, size: nat, typ: nat, bytes: seq<Byte>)

  datatype Reply = Reply(kr: KernelReturn, result: Byte, size: nat, typ: nat, bytes: Payload)

  datatype Exchange = Exchange(req: Request, reply: Reply)

  type Kernel = seq<Exchange> -> Request -> Reply

  datatype KeyInfo = KeyInfo(size: nat, typ: nat)

  datatype SmcError =
    | AlreadyClosed
    | Busy
    | Timeout
    | CallFailed(kr: KernelReturn)
    | SmcResult(result: Byte)
    | KeyNotFound(key: nat)
    | EmptyResponse(key: nat)
    | SizeMismatch(key: nat, expected: nat, got: nat)
    | TypeMismatch(key: nat, expected: nat, found: nat)
    | InvalidFloat(key: nat)
    | EndiannessImplausible(count: nat)
    | WriteRefused(key: nat, result: Byte)
    | WriteReadbackMismatch(key: nat, wrote: seq<Byte>, read: seq<Byte>)
    | UnlockRejected(result: Byte)
    | UnlockMismatch(readback: Byte)
    | ConflictDetected
    | ServiceNotFound
    | ArithmeticPanic // overflow-checks = true: the process aborts

  const ERR_KEY_NOT_FOUND: Byte := 0x84

  // ---- four-character codes -------------------------------------------------------------

  function FourCC(a: char, b: char, c: char, d: char): nat {
    ((a as nat * 256 + b as nat) * 256 + c as nat) * 256 + d as nat
  }

  const TYPE_FLT: nat := FourCC('f', 'l', 't', ' ')
  const TYPE_UI8: nat := FourCC('u', 'i', '8', ' ')
  const TYPE_UI32: nat := FourCC('u', 'i', '3', '2')

  // `b'0' + index` fits a byte.
  predicate Nameable(index: nat) { index <= 207 }

  function FanKey(index: nat, c: char, d: char): nat {
    ((('F' as nat * 256) + ('0' as nat + index)) * 256 + c as nat) * 256 + d as nat
  }

  // The write whitelist (src/smc/keys.rs:52-107). A target write goes to `F<i>Dc`.
  datatype WritableKey = FanMode(index: nat) | FanTarget(index: nat) | Ftst
  {
    function Fourcc(): nat {
      match this
      case FanMode(i) => FanKey(i, 'm', 'd')
      case FanTarget(i) => FanKey(i, 'D', 'c')
      case Ftst => FourCC('F', 't', 's', 't')
    }

    function DataType(): nat {
      match this
      case FanMode(_) => TYPE_UI8
      case FanTarget(_) => TYPE_FLT
      case Ftst => TYPE_UI8
    }
  }

  // Different whitelist entries never share a register.
  lemma KeysDistinct(a: WritableKey, b: WritableKey)
    requires a.Ftst? || Nameable(a.index)
    requires b.Ftst? || Nameable(b.index)
    ensures a.Fourcc() == b.Fourcc() <==> a == b
  {
  }
}
