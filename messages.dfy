/**
 * The live part of commonCode/messages.c: the size of each message format's
 * header (the C struct sizes on an LP64 target, where every field is aligned
 * to its own width and a struct to its widest field) and the construction of
 * the default header with its fields in network byte order. Headers are
 * records of their fields; the bytes of a field are given by ByteOrder.Store.
 */
module Messages {
  import opened ByteOrder

  datatype Option<T> = None | Some(value: T)

  const MSG_FORMAT_DEFAULT: uint16 := 0
  const MSG_FORMAT_BSM: uint16 := 1
  const MSG_FORMAT_TGIF: uint16 := 2
  const MSG_FORMAT_TGIF_HEARTBEAT: uint16 := 3

  // ---------------------------------------------------------------------
  // Struct sizes on an LP64 target
  // ---------------------------------------------------------------------

  /** sizeof(messageHeaderDefault): two u16, a u32 and two u64, no padding. */
  const SIZEOF_DEFAULT_HDR: nat := 24
  /** sizeof(BSMMsg): 2 bytes of padding before nodeID and before timeError; the last field ends at 64, so no tail padding. */
  const SIZEOF_BSM: nat := 64
  /** sizeof(TGIFMsgHeader): as BSMMsg with one u32 fewer, padded to 8. */
  const SIZEOF_TGIF_HDR: nat := 64
  /** sizeof(TGIFHeartbeat): 4-byte aligned, 2 bytes of padding twice. */
  const SIZEOF_HEARTBEAT: nat := 60
  /** sizeof(TGIFACK): three u32. */
  const SIZEOF_TGIFACK: nat := 12

  // ---------------------------------------------------------------------
  // getMsgOverhead
  // ---------------------------------------------------------------------

  /** The result of getMsgOverhead: a size, or the process exits with EXIT_FAILURE. */
  datatype Overhead = Size(bytes: nat) | ExitFailure

  /** getMsgOverhead: the header size of formats 0 to 3; any other format ends the process. */
  function GetMsgOverhead(msgFormat: uint16): (r: Overhead)
    ensures r == ExitFailure <==> msgFormat > MSG_FORMAT_TGIF_HEARTBEAT
    ensures msgFormat == MSG_FORMAT_DEFAULT ==> r == Size(SIZEOF_DEFAULT_HDR)
    ensures msgFormat == MSG_FORMAT_BSM ==> r == Size(SIZEOF_BSM)
    ensures msgFormat == MSG_FORMAT_TGIF ==> r == Size(SIZEOF_TGIF_HDR)
    ensures msgFormat == MSG_FORMAT_TGIF_HEARTBEAT ==> r == Size(SIZEOF_HEARTBEAT)
  {
    match msgFormat
    case 0 => Size(SIZEOF_DEFAULT_HDR)
    case 1 => Size(SIZEOF_BSM)
    case 2 => Size(SIZEOF_TGIF_HDR)
    case 3 => Size(SIZEOF_HEARTBEAT)
    case _ => ExitFailure
  }

  // ---------------------------------------------------------------------
  // createDefaultMsgHdr
  // ---------------------------------------------------------------------

  /** messageHeaderDefault, with each field as it sits in memory (network order). */
  datatype MessageHeaderDefault = MessageHeaderDefault(
    size: uint16, mode: uint16, sequenceNum: uint32, tsSec: uint64, tsNsec: uint64)

  /** TGIFACK, with each field as it sits in memory. */
  datatype TgifAck = TgifAck(sequenceNum: uint32, tsSec: uint32, tsNsec: uint32)

  /**
   * createDefaultMsgHdr(sequenceNum, mode, myTime): None when the allocation
   * fails (allocOk false); otherwise a zeroed header whose size, mode and
   * sequence number are stored in network byte order. myTime is not used.
   */
  function CreateDefaultMsgHdr(host: Endian, sequenceNum: uint32, mode: uint16, allocOk: bool)
    : (r: Option<MessageHeaderDefault>)
    ensures r.None? <==> !allocOk
    ensures r.Some? ==> Size(Ntohs(host, r.value.size)) == GetMsgOverhead(MSG_FORMAT_DEFAULT)
    ensures r.Some? ==> Ntohs(host, r.value.mode) == mode
    ensures r.Some? ==> Ntohl(host, r.value.sequenceNum) == sequenceNum
    ensures r.Some? ==> r.value.tsSec == 0 && r.value.tsNsec == 0
  {
    if !allocOk then None
    else Some(MessageHeaderDefault(Htons(host, SIZEOF_DEFAULT_HDR), Htons(host, mode), Htonl(host, sequenceNum), 0, 0))
  }

  /** On the wire, the header's first bytes are the big-endian size, mode and sequence number. */
  lemma {:induction false} DefaultHeaderWireOrder(host: Endian, sequenceNum: uint32, mode: uint16)
    ensures var h := CreateDefaultMsgHdr(host, sequenceNum, mode, true).value;
            Store(host, h.size, 2) == BeBytes(SIZEOF_DEFAULT_HDR, 2)
            && Store(host, h.mode, 2) == BeBytes(mode, 2)
            && Store(host, h.sequenceNum, 4) == BeBytes(sequenceNum, 4)
  {
    Pow256Widths();
    StoreHostToNet(host, SIZEOF_DEFAULT_HDR, 2);
    StoreHostToNet(host, mode, 2);
    StoreHostToNet(host, sequenceNum, 4);
  }
}
