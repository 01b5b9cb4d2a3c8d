/**
 * The parts of a DNS message (RFC 1035, section 4.1) that the dispatcher reads
 * or writes. Messages are values: the dispatcher never changes a request, and
 * the reply it builds is local to one call.
 */
module Dns {

  newtype uint8 = x: int | 0 <= x < 0x100
  newtype uint16 = x: int | 0 <= x < 0x1_0000
  newtype uint32 = x: int | 0 <= x < 0x1_0000_0000

  /** Raw bytes: an encoded message, or the address bytes of an A record. */
  type Wire = seq<bv8>

  /** The parsed local address (4 bytes for IPv4, 16 for IPv6), opaque to the dispatcher. */
  type Addr = seq<bv8>

  /** Record type A (RFC 1035, section 3.2.2). */
  const TypeA: uint16 := 1
  /** Class IN (RFC 1035, section 3.2.4). */
  const ClassINET: uint16 := 1

  /** A question: the queried name as received, its record type and its class. */
  datatype Question = Question(name: string, qtype: uint16, qclass: uint16)

  /** The owner name, class and time-to-live shared by every resource record. */
  datatype Header = Header(name: string, rrclass: uint16, ttl: uint32)

  /** A resource record: header, record type and type-specific data. */
  datatype RR = RR(hdr: Header, rrtype: uint16, rdata: seq<bv8>)

  /** The fixed header of a message, with its flags unpacked. */
  datatype MsgHeader = MsgHeader(
    id: uint16,
    response: bool,
    opcode: uint8,
    authoritative: bool,
    truncated: bool,
    recursionDesired: bool,
    recursionAvailable: bool,
    zero: bool,
    authenticatedData: bool,
    checkingDisabled: bool,
    rcode: uint16)

  /** A message: header, the four sections, and the wire buffer it carries. */
  datatype Msg = Msg(
    header: MsgHeader,
    question: seq<Question>,
    answer: seq<RR>,
    ns: seq<RR>,
    extra: seq<RR>,
    data: Wire)
}
