/** The parts of a DNS message (github.com/miekg/dns) that the server reads or changes. */
module Dns {
  type uint16 = x: int | 0 <= x < 0x1_0000
  type uint32 = x: int | 0 <= x < 0x1_0000_0000

  const RCODE_SUCCESS := 0
  const RCODE_SERVER_FAILURE := 2
  const RCODE_NAME_ERROR := 3
  const RCODE_REFUSED := 5

  const TYPE_A: uint16 := 1
  const TYPE_CNAME: uint16 := 5
  const TYPE_PTR: uint16 := 12
  const TYPE_TXT: uint16 := 16
  const TYPE_AAAA: uint16 := 28
  const TYPE_ANY: uint16 := 255
  const CLASS_INET: uint16 := 1
  const CLASS_CHAOS: uint16 := 3
  const MAX_MSG_SIZE := 65535

  datatype Question = Question(name: string, qtype: uint16, qclass: uint16)

  /** A resource record; `data` is the record data in presentation form. */
  datatype RR = RR(name: string, rrtype: uint16, rrclass: uint16, ttl: uint32, data: string)

  function Backslashes(s: string): nat {
    if s != [] && s[|s| - 1] == '\\' then 1 + Backslashes(s[..|s| - 1]) else 0
  }

  /** `dns.IsFqdn`: the name ends with a dot that is not escaped. */
  predicate IsFqdn(s: string) {
    s != [] && s[|s| - 1] == '.' && Backslashes(s[..|s| - 1]) % 2 == 0
  }

  /** `dns.Fqdn`. */
  function Fqdn(s: string): string {
    if IsFqdn(s) then s else s + "."
  }

  datatype MsgHdr = MsgHdr(
    id: uint16, response: bool, opcode: int, authoritative: bool, truncated: bool,
    recursionDesired: bool, recursionAvailable: bool, checkingDisabled: bool, rcode: int)

  datatype Msg = Msg(
    hdr: MsgHdr, compress: bool,
    question: seq<Question>, answer: seq<RR>, ns: seq<RR>, extra: seq<RR>)
  {
    function WithTruncated(b: bool): Msg { this.(hdr := hdr.(truncated := b)) }
  }

  /** `new(dns.Msg)`. */
  const EMPTY_MSG := Msg(MsgHdr(0, false, 0, false, false, false, false, false, 0), false, [], [], [], [])

  /** `SetReply`: the header and the first question of the request, in a response. */
  function SetReply(m: Msg, req: Msg): Msg {
    var query := req.hdr.opcode == 0;
    m.(hdr := m.hdr.(
         id := req.hdr.id, response := true, opcode := req.hdr.opcode, rcode := RCODE_SUCCESS,
         recursionDesired := if query then req.hdr.recursionDesired else m.hdr.recursionDesired,
         checkingDisabled := if query then req.hdr.checkingDisabled else m.hdr.checkingDisabled),
       question := if req.question == [] then m.question else req.question[..1])
  }

  function SetRcode(m: Msg, req: Msg, rcode: int): Msg {
    var r := SetReply(m, req);
    r.(hdr := r.hdr.(rcode := rcode))
  }

  /** A `*dns.Msg`: a message that the holders of the pointer update in place. */
  class MsgPtr {
    var msg: Msg

    constructor (msg: Msg)
      ensures this.msg == msg
    {
      this.msg := msg;
    }

    /** A deep copy: the result shares nothing with the original. */
    method Copy() returns (c: MsgPtr)
      ensures fresh(c) && c.msg == msg
    {
      c := new MsgPtr(msg);
    }
  }
}
