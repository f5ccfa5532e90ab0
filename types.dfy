/** The records that the Policy ACL client fills in: the match criteria and
    actions of one flow entry, the flow entry itself, and the client's own
    argument record (`arguments_t`). Values are kept at the width their parser
    produced; the field widths of the OF-DPA API header are not modelled. */
module AclTypes {

  type Byte = x: int | 0 <= x < 256

  /** A value that fits one 32-bit word. */
  type Word32 = x: int | 0 <= x < 0x1_0000_0000

  const AllOnes32: Word32 := 0xFFFF_FFFF

  /** A 48-bit Ethernet MAC address, six bytes, most significant first. */
  type Mac = s: seq<Byte> | |s| == 6 witness [0, 0, 0, 0, 0, 0]

  /** An IPv6 address as the 16 bytes `inet_pton` writes, in network order. */
  type Ip6Addr = s: seq<Byte> | |s| == 16 witness [0, 0, 0, 0, 0, 0, 0, 0, 0, 0, 0, 0, 0, 0, 0, 0]

  /** An IPv6 mask as the four 32-bit words written through `s6_addr32`. */
  type Ip6Mask = s: seq<Word32> | |s| == 4 witness [0, 0, 0, 0]

  const ZeroMac: Mac := [0, 0, 0, 0, 0, 0]
  const ZeroIp6: Ip6Addr := [0, 0, 0, 0, 0, 0, 0, 0, 0, 0, 0, 0, 0, 0, 0, 0]
  const ZeroIp6Mask: Ip6Mask := [0, 0, 0, 0]

  /** The match criteria of a Policy ACL flow (`ofdpaPolicyAclFlowMatch_t`). */
  datatype AclMatch = AclMatch(
    inPort: nat, inPortMask: nat,
    tunnelId: nat,
    srcMac: Mac, srcMacMask: Mac,
    destMac: Mac, destMacMask: Mac,
    etherType: nat,
    vlanId: nat, vlanIdMask: nat,
    vlanPcp: nat, vlanPcpMask: nat,
    sourceIp4: nat, sourceIp4Mask: Word32,
    destIp4: nat, destIp4Mask: Word32,
    sourceIp6: Ip6Addr, sourceIp6Mask: Ip6Mask,
    destIp6: Ip6Addr, destIp6Mask: Ip6Mask,
    ipProto: nat, ipProtoMask: nat,
    dscp: nat, dscpMask: nat,
    srcL4Port: nat, srcL4PortMask: nat,
    destL4Port: nat, destL4PortMask: nat,
    icmpType: nat, icmpTypeMask: nat,
    icmpCode: nat, icmpCodeMask: nat)

  /** A Policy ACL flow entry: its match and its actions
      (`ofdpaPolicyAclFlowEntry_t`). Each `...Action` flag says whether the
      paired value is applied. */
  datatype AclEntry = AclEntry(
    matchCriteria: AclMatch,
    groupId: nat,
    queueIdAction: bool, queueId: nat,
    vlanPcpAction: bool, vlanPcp: nat,
    dscpAction: bool, dscp: nat,
    outputTunnelPort: nat,
    outputPort: nat,
    clearActions: bool)

  /** A flow entry of the ACL policy table (`ofdpaFlowEntry_t`): the table it
      belongs to, its priority, its idle timeout and its table-specific data. */
  datatype FlowEntry = FlowEntry(tableId: nat, priority: nat, idleTime: nat, acl: AclEntry)

  /** The client's argument record (`arguments_t`). */
  datatype Arguments = Arguments(
    count: int,
    delete: bool,
    list: bool,
    ipv4Found: bool,
    ipv6Found: bool,
    flow: FlowEntry)

  function MatchOf(flow: FlowEntry): AclMatch
  {
    flow.acl.matchCriteria
  }

  function WithMatch(flow: FlowEntry, m: AclMatch): FlowEntry
  {
    flow.(acl := flow.acl.(matchCriteria := m))
  }

  function DestMac(flow: FlowEntry): Mac
  {
    flow.acl.matchCriteria.destMac
  }

  function WithDestMac(flow: FlowEntry, mac: Mac): FlowEntry
  {
    WithMatch(flow, MatchOf(flow).(destMac := mac))
  }
}
