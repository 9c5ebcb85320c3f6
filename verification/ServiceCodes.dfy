/** Service codes: ten bits of service number over six bits of attribute. */
module ServiceCodes {
  import opened Bytes
  import opened Wrappers

  datatype ServiceKind = Random | Cyclic | Purse

  datatype ServiceAttribute =
    | RandomReadWrite
    | RandomReadOnly
    | CyclicReadWrite
    | CyclicReadOnly
    | PurseDirect
    | PurseCashback
    | PurseDecrement
    | PurseReadOnly
  {
    function Kind(): ServiceKind {
      match this
      case RandomReadWrite | RandomReadOnly => Random
      case CyclicReadWrite | CyclicReadOnly => Cyclic
      case PurseDirect | PurseCashback | PurseDecrement | PurseReadOnly => Purse
    }
  }

  /** Decodes the six attribute bits, ignoring the authentication bit. */
  function FromAttributeBits(attribute: byte): Option<ServiceAttribute> {
    match attribute % 64 / 2
    case 4 => Some(RandomReadWrite)
    case 5 => Some(RandomReadOnly)
    case 6 => Some(CyclicReadWrite)
    case 7 => Some(CyclicReadOnly)
    case 8 => Some(PurseDirect)
    case 9 => Some(PurseCashback)
    case 10 => Some(PurseDecrement)
    case 11 => Some(PurseReadOnly)
    case _ => None
  }

  /** The service number: the upper ten bits. */
  function Number(code: u16): u16 { code / 64 }

  function Attributes(code: u16): byte { code % 64 }

  function Attribute(code: u16): Option<ServiceAttribute> {
    FromAttributeBits(Attributes(code))
  }

  function Kind(code: u16): Option<ServiceKind> {
    match Attribute(code)
    case None => None
    case Some(attribute) => Some(attribute.Kind())
  }

  // ------------------------------------------------------------------ raw codes

  /** The service number of a code is the number of whole 64s below it. */
  lemma NumberIs(code: u16, n: u16)
    ensures Number(code) == n <==> 64 * n <= code < 64 * n + 64
  {
  }

  /** What the low six bits of a code say, the lowest being the authentication bit. */
  lemma AttributeIs(code: u16)
    ensures Attribute(code) == Some(RandomReadWrite) <==> 8 <= code % 64 < 10
    ensures Attribute(code) == Some(RandomReadOnly) <==> 10 <= code % 64 < 12
    ensures Attribute(code) == Some(CyclicReadWrite) <==> 12 <= code % 64 < 14
    ensures Attribute(code) == Some(CyclicReadOnly) <==> 14 <= code % 64 < 16
    ensures Attribute(code) == Some(PurseDirect) <==> 16 <= code % 64 < 18
    ensures Attribute(code) == Some(PurseCashback) <==> 18 <= code % 64 < 20
    ensures Attribute(code) == Some(PurseDecrement) <==> 20 <= code % 64 < 22
    ensures Attribute(code) == Some(PurseReadOnly) <==> 22 <= code % 64 < 24
    ensures Attribute(code) == None <==> code % 64 < 8 || 24 <= code % 64
  {
  }

  /** Only the low six bits of a byte are looked at. */
  lemma BitsAreMasked(attribute: byte)
    ensures FromAttributeBits(attribute) == Attribute(attribute)
  {
  }

  /** And what kind of service that makes. */
  lemma KindIs(code: u16)
    ensures Kind(code) == Some(Random) <==> 8 <= code % 64 < 12
    ensures Kind(code) == Some(Cyclic) <==> 12 <= code % 64 < 16
    ensures Kind(code) == Some(Purse) <==> 16 <= code % 64 < 24
    ensures Kind(code) == None <==> code % 64 < 8 || 24 <= code % 64
  {
    AttributeIs(code);
  }
}
