/** src/sandbox/abi.rs: proposals and their packed 64-bit wire form. */
module SandboxAbi {
  datatype Result<+T, +E> = Success(value: T) | Failure(error: E)

  type U8 = n: int | 0 <= n < 0x100
  type I64 = n: int | -0x8000_0000_0000_0000 <= n < 0x8000_0000_0000_0000

  datatype RejectReason = InvalidAbi | InvalidProposal | SandboxTrap | Timeout | ResourceLimit

  datatype Proposal =
    | Noop
    | ReactOnce
    | SendStamped(count: U8)
    | SpecialPhrase
    | SuspiciousInput
    | Defer
    | Reject(reason: RejectReason)

  const WORD := 0x1_0000_0000

  function ReasonCode(reason: RejectReason): int {
    match reason
    case InvalidAbi => 1
    case InvalidProposal => 2
    case SandboxTrap => 3
    case Timeout => 4
    case ResourceLimit => 5
  }

  // `(kind << 32) | aux`, `(value >> 32) & 0xFFFF_FFFF` and `value & 0xFFFF_FFFF` are written as
  // arithmetic; Dafny's `/` and `%` floor here, as the arithmetic shift and the mask do.
  function Pack(kind: int, aux: int): (value: I64)
    requires 0 <= kind <= 6 && 0 <= aux < WORD
  {
    kind * WORD + aux
  }

  function KindOf(value: I64): int { value / WORD % WORD }

  function AuxOf(value: I64): int { value % WORD }

  /** The bit operations of the source and the arithmetic above agree on every 64-bit word. */
  lemma PackingIsBitwise(kind: bv64, aux: bv64, value: bv64)
    ensures kind <= 6 && aux < 0x1_0000_0000 ==> (kind << 32) | aux == kind * 0x1_0000_0000 + aux
    ensures (value >> 32) & 0xFFFF_FFFF == value / 0x1_0000_0000
    ensures value & 0xFFFF_FFFF == value % 0x1_0000_0000
  {
  }

  function EncodeWire(p: Proposal): I64 {
    match p
    case Noop => Pack(0, 0)
    case ReactOnce => Pack(1, 1)
    case SendStamped(count) => Pack(2, count)
    case SpecialPhrase => Pack(3, 1)
    case SuspiciousInput => Pack(4, 0)
    case Defer => Pack(5, 0)
    case Reject(reason) => Pack(6, ReasonCode(reason))
  }

  function DecodeWire(value: I64): Result<Proposal, RejectReason> {
    var kind, aux := KindOf(value), AuxOf(value);
    if kind == 0 then Success(Noop)
    else if kind == 1 then Success(ReactOnce)
    else if kind == 2 then Success(SendStamped(if aux < 1 then 1 else if aux > 255 then 255 else aux))
    else if kind == 3 then Success(SpecialPhrase)
    else if kind == 4 then Success(SuspiciousInput)
    else if kind == 5 then Success(Defer)
    else if kind == 6 then Success(Reject(
      match aux
      case 1 => InvalidAbi
      case 2 => InvalidProposal
      case 3 => SandboxTrap
      case 4 => Timeout
      case 5 => ResourceLimit
      case _ => InvalidProposal))
    else Failure(InvalidProposal)
  }

  /** The words on the wire: kind in the upper 32 bits, count or reason in the lower. */
  lemma WireWords(count: U8)
    ensures EncodeWire(Noop) == 0 && EncodeWire(ReactOnce) == 0x1_0000_0001
    ensures EncodeWire(SendStamped(count)) == 0x2_0000_0000 + count
    ensures EncodeWire(SpecialPhrase) == 0x3_0000_0001 && EncodeWire(SuspiciousInput) == 0x4_0000_0000
    ensures EncodeWire(Defer) == 0x5_0000_0000
    ensures EncodeWire(Reject(InvalidAbi)) == 0x6_0000_0001 && EncodeWire(Reject(InvalidProposal)) == 0x6_0000_0002
    ensures EncodeWire(Reject(SandboxTrap)) == 0x6_0000_0003 && EncodeWire(Reject(Timeout)) == 0x6_0000_0004
    ensures EncodeWire(Reject(ResourceLimit)) == 0x6_0000_0005
  {
  }

  function AtLeastOneStamp(p: Proposal): Proposal {
    if p == SendStamped(0) then SendStamped(1) else p
  }

  /** Packing loses nothing: both halves come back. */
  lemma Unpack(kind: int, aux: int)
    requires 0 <= kind <= 6 && 0 <= aux < WORD
    ensures KindOf(Pack(kind, aux)) == kind && AuxOf(Pack(kind, aux)) == aux
  {
    assert (kind * WORD + aux) / WORD == kind;
  }

  /** Decoding after encoding is the identity, except that a stamp count of 0 comes back as 1. */
  lemma DecodeEncode(p: Proposal)
    ensures DecodeWire(EncodeWire(p)) == Success(AtLeastOneStamp(p))
    ensures DecodeWire(EncodeWire(p)) == Success(p) <==> p != SendStamped(0)
  {
    match p
    case Noop => Unpack(0, 0);
    case ReactOnce => Unpack(1, 1);
    case SendStamped(count) => Unpack(2, count);
    case SpecialPhrase => Unpack(3, 1);
    case SuspiciousInput => Unpack(4, 0);
    case Defer => Unpack(5, 0);
    case Reject(reason) => Unpack(6, ReasonCode(reason));
  }

  /** Every word the guest could return is either refused, exactly when its kind is unknown, or
      normalised: re-encoding the decoded proposal keeps the kind, and decoding again changes nothing.
      Counts are taken into 1 to 255, and an unknown reason is an invalid proposal. */
  lemma DecodeNormalises(value: I64)
    ensures DecodeWire(value).Failure? <==> KindOf(value) > 6
    ensures DecodeWire(value).Success? && DecodeWire(value).value.Reject? && AuxOf(value) !in {1, 2, 3, 4, 5} ==>
              DecodeWire(value).value.reason == InvalidProposal
    ensures DecodeWire(value).Success? && DecodeWire(value).value.SendStamped? && AuxOf(value) >= 1 ==>
              DecodeWire(value).value.count == if AuxOf(value) < 255 then AuxOf(value) else 255
    ensures DecodeWire(value).Success? ==> KindOf(EncodeWire(DecodeWire(value).value)) == KindOf(value)
    ensures DecodeWire(value).Success? ==> DecodeWire(EncodeWire(DecodeWire(value).value)) == DecodeWire(value)
    ensures DecodeWire(value).Success? && DecodeWire(value).value.SendStamped? ==>
              1 <= DecodeWire(value).value.count <= 255
  {
    if DecodeWire(value).Success? {
      DecodeEncode(DecodeWire(value).value);
    }
  }
}
