/**
 * The field decoders of includes/HeaderParser.h: the masks and shifts that
 * take apart the IPv4 version/header-length byte and flags/fragment-offset
 * word, the TCP data-offset byte and flags byte, and the 802.11 Frame
 * Control word, together with the offsets at which the IPv4 and TCP
 * headers start in a captured Ethernet frame. Frame positions are byte
 * offsets (the frame is a `const u_char *`).
 */
module HeaderParser {
  import opened MacAddress

  type Word = bv16

  /** A mask of exactly one bit. */
  predicate SingleBit16(m: Word) {
    m != 0 && m & (m - 1) == 0
  }

  predicate SingleBit8(m: Byte) {
    m != 0 && m & (m - 1) == 0
  }

  // ---------------------------------------------------------------------------
  // Frame offsets

  /** sizeof(EthernetHeader): destination and source addresses and a 16-bit type. */
  const EthernetHeaderSize: nat := 2 * MacSize + 2

  /** IP_START: the IPv4 header follows the Ethernet header. */
  function IpStart(packet: nat): (r: nat)
    ensures r - packet == EthernetHeaderSize == 14
  {
    packet + EthernetHeaderSize
  }

  // ---------------------------------------------------------------------------
  // IPv4 version and header length

  /** IP_VERSION: the high nibble. */
  function IpVersion(v: Byte): (r: Byte)
    ensures r < 16 && r as int == v as int / 16
  {
    v >> 4
  }

  /** IP_HEADER_LENGTH: the low nibble, in 32-bit words. */
  function IpHeaderLength(v: Byte): (r: Byte)
    ensures r < 16 && r as int == v as int % 16
  {
    v & 0x0f
  }

  /** The two nibbles together are the byte. */
  lemma VersionAndLengthRecompose(v: Byte)
    ensures 16 * IpVersion(v) as int + IpHeaderLength(v) as int == v as int
    ensures (IpVersion(v) << 4) | IpHeaderLength(v) == v
  {
  }

  /** A byte built from a version and a header length gives both back. */
  lemma VersionAndLengthDecode(version: Byte, ihl: Byte)
    requires version < 16 && ihl < 16
    ensures IpVersion((version << 4) | ihl) == version
    ensures IpHeaderLength((version << 4) | ihl) == ihl
  {
  }

  // ---------------------------------------------------------------------------
  // IPv4 flags and fragment offset

  datatype IpFlag = Reserved | DontFragment | MoreFragments

  /** IP_RESERVED_FLAG, IP_DONT_FRAG and IP_MORE_FRAG: the three top bits. */
  function IpFlagMask(f: IpFlag): (m: Word)
    ensures SingleBit16(m) && m == 1 << IpFlagBit(f)
  {
    match f
    case Reserved => 0x8000
    case DontFragment => 0x4000
    case MoreFragments => 0x2000
  }

  /** The flag's bit, counted from the least significant. */
  function IpFlagBit(f: IpFlag): (k: nat)
    ensures k < 16
  {
    match f
    case Reserved => 15
    case DontFragment => 14
    case MoreFragments => 13
  }

  const IpFragOffsetMask: Word := 0x1fff

  /** IP_FRAG_OFFSET: the low 13 bits, in units of eight bytes. */
  function IpFragOffset(w: Word): (r: Word)
    ensures r <= 8191 && (w - r) & 0x1fff == 0
  {
    w & IpFragOffsetMask
  }

  /** The flag macros: the word with only that flag's bit kept. */
  function IpFlagValue(w: Word, f: IpFlag): (r: Word)
    ensures r == 0 || r == IpFlagMask(f)
  {
    w & IpFlagMask(f)
  }

  /** A flag macro is non-zero exactly when its bit of the word is set. */
  lemma IpFlagReadsItsBit(w: Word, f: IpFlag)
    ensures IpFlagValue(w, f) != 0 <==> (w >> IpFlagBit(f)) & 1 == 1
  {
  }

  /** The offset mask and the three flag masks are disjoint and cover the word. */
  lemma IpFieldsPartition(w: Word)
    ensures forall f, g :: f != g ==> IpFlagMask(f) & IpFlagMask(g) == 0
    ensures forall f :: IpFlagMask(f) & IpFragOffsetMask == 0
    ensures IpFragOffset(w) | IpFlagValue(w, Reserved) | IpFlagValue(w, DontFragment) | IpFlagValue(w, MoreFragments) == w
  {
  }

  // ---------------------------------------------------------------------------
  // TCP

  /** TCP_DATA_OFFSET: the high nibble, in 32-bit words. */
  function TcpDataOffset(b: Byte): (r: Byte)
    ensures r < 16 && r as int == b as int / 16
  {
    b >> 4
  }

  datatype TcpFlag = Cwr | Ece | Urg | Ack | Psh | Rst | Syn | Fin

  /** TCP_FLAG_CWR down to TCP_FLAG_FIN: one bit each, from the top bit down. */
  function TcpFlagMask(f: TcpFlag): (m: Byte)
    ensures SingleBit8(m) && m == 1 << TcpFlagBit(f)
  {
    match f
    case Cwr => 0x80
    case Ece => 0x40
    case Urg => 0x20
    case Ack => 0x10
    case Psh => 0x08
    case Rst => 0x04
    case Syn => 0x02
    case Fin => 0x01
  }

  /** The flag's bit, counted from the least significant. */
  function TcpFlagBit(f: TcpFlag): (k: nat)
    ensures k < 8
  {
    match f
    case Cwr => 7
    case Ece => 6
    case Urg => 5
    case Ack => 4
    case Psh => 3
    case Rst => 2
    case Syn => 1
    case Fin => 0
  }

  /** A flag macro: the flags byte with only that flag's bit kept. */
  function TcpFlagValue(b: Byte, f: TcpFlag): (r: Byte)
    ensures r == 0 || r == TcpFlagMask(f)
  {
    b & TcpFlagMask(f)
  }

  /** The eight flags test different bits, and together they are the whole byte. */
  lemma TcpFlagsPartition(b: Byte)
    ensures forall f, g :: f != g ==> TcpFlagMask(f) & TcpFlagMask(g) == 0
    ensures TcpFlagValue(b, Cwr) | TcpFlagValue(b, Ece) | TcpFlagValue(b, Urg) | TcpFlagValue(b, Ack) |
            TcpFlagValue(b, Psh) | TcpFlagValue(b, Rst) | TcpFlagValue(b, Syn) | TcpFlagValue(b, Fin) == b
  {
  }

  /** A flag macro is non-zero exactly when its bit of the byte is set. */
  lemma TcpFlagReadsItsBit(b: Byte, f: TcpFlag)
    ensures TcpFlagValue(b, f) != 0 <==> (b >> TcpFlagBit(f)) & 1 == 1
  {
  }

  // ---------------------------------------------------------------------------
  // The TCP header's position

  /**
   * TCP_START as the preprocessor expands it: the header-length macro is
   * not parenthesised, so the `* 4` binds to the mask and the term is
   * `v & 0x3c`.
   */
  function TcpStart(packet: nat, v: Byte): (r: nat)
    ensures r == packet + EthernetHeaderSize + (v & (0x0f * 4)) as int
    ensures IpStart(packet) <= r <= IpStart(packet) + 60
  {
    packet + EthernetHeaderSize + (v & 0x3c) as int
  }

  /** TCP_START as intended: the IPv4 header's length in bytes past its start. */
  function TcpStartIntended(packet: nat, v: Byte): nat {
    IpStart(packet) + 4 * IpHeaderLength(v) as int
  }

  /** The usual IPv4 header byte 0x45 places the TCP header 4 bytes in instead of 20. */
  lemma TcpStartMisplacesStandardHeader(packet: nat)
    ensures TcpStart(packet, 0x45) == IpStart(packet) + 4
    ensures TcpStartIntended(packet, 0x45) == IpStart(packet) + 20
  {
  }

  /** For every IPv4 header, as written the TCP header is placed inside the IPv4 header. */
  lemma TcpStartTooEarlyForIpv4(packet: nat, v: Byte)
    requires IpVersion(v) == 4 && IpHeaderLength(v) >= 1
    ensures TcpStart(packet, v) < TcpStartIntended(packet, v)
  {
    assert v & 0x3c == IpHeaderLength(v) & 0x0c;
  }

  /**
   * With a valid header length (at least five words, section 3.1 of
   * RFC 791) the intended TCP header lies 20 to 60 bytes past the IPv4
   * header's start, and it is where the IPv4 header ends.
   */
  lemma TcpStartIntendedBounds(packet: nat, v: Byte)
    requires IpHeaderLength(v) >= 5
    ensures IpStart(packet) + 20 <= TcpStartIntended(packet, v) <= IpStart(packet) + 60
    ensures TcpStartIntended(packet, v) - IpStart(packet) == 4 * (v as int % 16)
  {
  }

  // ---------------------------------------------------------------------------
  // 802.11 Frame Control

  datatype WifiField =
    | ProtocolVersion | FrameType | Subtype
    | ToAp | FromAp | MoreFrag | Retry | PowerMgt | MoreData | Wep | Rsvd

  /** WIFI_FLAG_PROTOCOL_VERSION down to WIFI_FLAG_RSVD. */
  function WifiMask(f: WifiField): (m: Word)
    ensures f.ProtocolVersion? || f.FrameType? || f.Subtype? || SingleBit16(m)
  {
    match f
    case ProtocolVersion => 0xc000
    case FrameType => 0x3000
    case Subtype => 0x0f00
    case ToAp => 0x0080
    case FromAp => 0x0040
    case MoreFrag => 0x0020
    case Retry => 0x0010
    case PowerMgt => 0x0008
    case MoreData => 0x0004
    case Wep => 0x0002
    case Rsvd => 0x0001
  }

  /** A Frame Control macro: the word with only that field's bits kept. */
  function WifiFieldValue(w: Word, f: WifiField): (r: Word)
    ensures r & WifiMask(f) == r && r & w == r
  {
    w & WifiMask(f)
  }

  /** The eleven masks are disjoint and together cover the 16-bit word. */
  lemma WifiFieldsPartition(w: Word)
    ensures forall f, g :: f != g ==> WifiMask(f) & WifiMask(g) == 0
    ensures WifiFieldValue(w, ProtocolVersion) | WifiFieldValue(w, FrameType) | WifiFieldValue(w, Subtype) |
            WifiFieldValue(w, ToAp) | WifiFieldValue(w, FromAp) | WifiFieldValue(w, MoreFrag) |
            WifiFieldValue(w, Retry) | WifiFieldValue(w, PowerMgt) | WifiFieldValue(w, MoreData) |
            WifiFieldValue(w, Wep) | WifiFieldValue(w, Rsvd) == w
  {
  }
}
