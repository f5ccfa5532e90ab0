/** The option decoder of the Policy ACL client, `parse_opt`: one call per
    option key with the option's text, each updating the client's argument
    record, and a final check when the input ends. Every error path reports
    through `argp_error`, which ends the process, so an error is a terminal
    `Exit`. The C library's text parsers are given as oracles (`Libc`) and the
    constants of the OF-DPA API header as parameters (`Api`). */
module OptionDecoder {

  import opened Wrappers
  import opened AclTypes
  import opened MacText
  import opened PrefixMasks

  /** A value of C's 64-bit `unsigned long`, what `strtoul` returns. */
  type ULong = x: int | 0 <= x < 0x1_0000_0000_0000_0000

  /** The C library as the parser uses it.
      - `strtoul`: `strtoul(arg, NULL, 0)`; None when it sets `errno`.
      - `inetPton4`: `inet_pton(AF_INET, ...)` when it returns 1, the address
        in host order (after `ntohl`); None otherwise.
      - `inetPton6`: `inet_pton(AF_INET6, ...)`, the 16 address bytes; None
        when it returns 0.
      - `fullShift`: what the host gives for `~0 << 32`, which C leaves
        undefined. */
  datatype Libc = Libc(
    strtoul: string -> Option<ULong>,
    inetPton4: string -> Option<Word32>,
    inetPton6: string -> Option<Ip6Addr>,
    fullShift: Word32)

  /** The constants the client takes from the OF-DPA API header. */
  datatype Api = Api(
    inPortExactMask: nat,
    vidExactMask: nat,
    ipv4ExactMask: Word32,
    portController: nat)

  /** Which prefix masks the decoder computes: the ones the parser's
      expressions give, or the prefix masks they are meant to be. */
  datatype MaskRule = AsWritten | Intended

  const DefaultCount: int := 1
  const VlanIdMax: nat := 4096
  const VlanPrioMax: nat := 7
  const DscpMax: nat := 63
  const PortNumMax: nat := 65535
  const InvalidEtherType: nat := 0xFFFF
  const InvalidProtocol: nat := 0xFFFF
  /** The IPv4 and IPv6 ethertypes (RFC 894; section 3 of RFC 2464). */
  const EtherTypeIp: nat := 0x0800
  const EtherTypeIpv6: nat := 0x86DD

  /** The keys `parse_opt` is called with: one per option, then the keys argp
      uses for a positional word, for "no positional words" and for the end
      of the input, and any other key. */
  datatype Key =
    | Count | Priority | Intf
    | VlanId | TunnelId | VlanPri | EtherType
    | SrcMac | DestMac | SrcMacMask | DestMacMask
    | DestIp4 | DestIp4Prefix | Protocol | SourceIp4 | SrcIp4Prefix
    | SourceIp6 | SrcIp6Prefix | DestIp6 | DestIp6Prefix | Dscp
    | SrcPort | DstPort | IcmpType | IcmpCode
    | SetGroup | SetQueue | SetVlanPri | SetDscp | OutputTunnelPort | Discard | Copy
    | KeyArg | KeyNoArgs | KeyEnd
    | Other(code: int)

  /** Why the parser ended the process. */
  datatype Failure =
    | InvalidValue(key: Key)
    | UnknownWord(word: string)
    | Ipv6WithIpv4Ethertype
    | Ipv4WithIpv6Ethertype

  /** The result of one `parse_opt` call: the record after a successful call
      (return 0), the end of the process (`argp_error`), or `ARGP_ERR_UNKNOWN`
      with the record untouched. */
  datatype Outcome = Continue(args: Arguments) | Exit(failure: Failure) | Unknown

  const DefaultSrcMac: Mac := [0x00, 0x09, 0x07, 0x05, 0x03, 0x01]
  const DefaultDestMac: Mac := [0x00, 0x01, 0x03, 0x05, 0x07, 0x09]
  const ExactMac: Mac := [0xFF, 0xFF, 0xFF, 0xFF, 0xFF, 0xFF]

  /** The record before any option: the client's defaults; every field
      they do not name is zero. */
  function DefaultArguments(api: Api): (r: Arguments)
    ensures r.count == DefaultCount && !r.delete && !r.list
    ensures !r.ipv4Found && !r.ipv6Found && MatchOf(r.flow).etherType == EtherTypeIp
    ensures forall libc: Libc, rule: MaskRule, arg: string :: Decode(libc, api, rule, KeyEnd, arg, r) == Continue(r)
  {
    var m := AclMatch(
      inPort := 1, inPortMask := api.inPortExactMask,
      tunnelId := 0,
      srcMac := DefaultSrcMac, srcMacMask := ExactMac,
      destMac := DefaultDestMac, destMacMask := ExactMac,
      etherType := EtherTypeIp,
      vlanId := 1, vlanIdMask := api.vidExactMask,
      vlanPcp := 0, vlanPcpMask := 0,
      sourceIp4 := 0x0101_0101, sourceIp4Mask := api.ipv4ExactMask,
      destIp4 := 0x0202_0202, destIp4Mask := api.ipv4ExactMask,
      sourceIp6 := ZeroIp6, sourceIp6Mask := ZeroIp6Mask,
      destIp6 := ZeroIp6, destIp6Mask := ZeroIp6Mask,
      ipProto := 17, ipProtoMask := 0xFF,
      dscp := 0, dscpMask := 0,
      srcL4Port := 100, srcL4PortMask := 0xFFFF_FFFF,
      destL4Port := 200, destL4PortMask := 0xFFFF_FFFF,
      icmpType := 0, icmpTypeMask := 0,
      icmpCode := 0, icmpCodeMask := 0);
    var e := AclEntry(
      matchCriteria := m, groupId := 0,
      queueIdAction := false, queueId := 0,
      vlanPcpAction := false, vlanPcp := 0,
      dscpAction := false, dscp := 0,
      outputTunnelPort := 0, outputPort := 0, clearActions := false);
    Arguments(
      count := DefaultCount, delete := false, list := false,
      ipv4Found := false, ipv6Found := false,
      flow := FlowEntry(tableId := 0, priority := 0, idleTime := 0, acl := e))
  }

  /** An `unsigned long` stored into a C `int` (`count`): the low 32 bits,
      read as two's complement. */
  function ToInt32(v: ULong): (r: int)
    ensures -0x8000_0000 <= r < 0x8000_0000
    ensures (r - v) % 0x1_0000_0000 == 0
  {
    var low := v % 0x1_0000_0000;
    if low < 0x8000_0000 then low else low - 0x1_0000_0000
  }

  /** An `unsigned long` stored into a `uint32_t` (`prefixLen`): the low 32 bits. */
  function ToUint32(v: ULong): (r: Word32)
    ensures (r - v) % 0x1_0000_0000 == 0
  {
    v % 0x1_0000_0000
  }

  /** `tolower` in the C locale. */
  function Lower(c: char): char
  {
    if 'A' <= c <= 'Z' then (c as int - 'A' as int + 'a' as int) as char else c
  }

  /** `strcasecmp(a, b) == 0`. */
  predicate SameIgnoringCase(a: string, b: string)
  {
    |a| == |b| && forall i :: 0 <= i < |a| ==> Lower(a[i]) == Lower(b[i])
  }

  /** The IPv4 mask of a prefix of p <= 32 bits under the given rule. */
  function Ip4MaskFor(rule: MaskRule, libc: Libc, p: nat): Word32
    requires p <= 32
  {
    if rule == AsWritten then Ip4MaskAsWritten(p, libc.fullShift) else PrefixWord(p)
  }

  /** The last, partial word an IPv6 prefix of p bits writes under the given rule. */
  function PartialWordFor(rule: MaskRule, p: nat): Word32
  {
    if rule == AsWritten then Shl(AllOnes32, p % 32) else PrefixWord(p % 32)
  }

  /** An IPv6 prefix mask, computed by the parser's loop on the four words. */
  method Ip6MaskWords(rule: MaskRule, mask: Ip6Mask, p: nat) returns (r: Ip6Mask)
    requires p <= 128
    ensures r == CoverPrefix(mask, p, PartialWordFor(rule, p))
  {
    var words := new Word32[4](w requires 0 <= w < 4 => mask[w]);
    assert words[..] == mask;
    FillPrefix(words, p, PartialWordFor(rule, p));
    r := words[..];
  }

  /** A prefix-length option: None when `strtoul` fails or the length, as the
      32-bit `prefixLen`, exceeds `max`. */
  function PrefixLength(libc: Libc, arg: string, max: nat): (r: Option<nat>)
    ensures r.Some? <==> libc.strtoul(arg).Some? && ToUint32(libc.strtoul(arg).value) <= max
    ensures r.Some? ==> r.value == ToUint32(libc.strtoul(arg).value)
  {
    match libc.strtoul(arg)
    case None => None
    case Some(v) => if ToUint32(v) > max then None else Some(ToUint32(v))
  }

  /** An IPv4 address option: dotted-quad text, or else any number `strtoul`
      reads. */
  function Ip4Address(libc: Libc, arg: string): Option<nat>
  {
    match libc.inetPton4(arg)
    case Some(x) => Some(x)
    case None =>
      match libc.strtoul(arg)
      case Some(v) => Some(v)
      case None => None
  }

  /** A successful call: the record with the given match and entry. */
  function Done(a: Arguments, m: AclMatch, e: AclEntry): Outcome
  {
    Continue(a.(flow := a.flow.(acl := e.(matchCriteria := m))))
  }

  /** The options that carry an address, a mask or a prefix length. */
  predicate IsAddressKey(key: Key)
  {
    key.SourceIp6? || key.SrcIp6Prefix? || key.DestIp6? || key.DestIp6Prefix? ||
    key.DestIp4? || key.DestIp4Prefix? || key.SourceIp4? || key.SrcIp4Prefix? ||
    key.SrcMac? || key.SrcMacMask? || key.DestMac? || key.DestMacMask?
  }

  /** The options that set one numeric match field (or the count or priority). */
  predicate IsFieldKey(key: Key)
  {
    key.Count? || key.Priority? || key.Intf? || key.VlanId? || key.TunnelId? ||
    key.VlanPri? || key.EtherType? || key.Protocol? || key.Dscp? || key.SrcPort? ||
    key.DstPort? || key.IcmpType? || key.IcmpCode?
  }

  /** The options that set an action of the flow. */
  predicate IsActionKey(key: Key)
  {
    key.SetGroup? || key.SetQueue? || key.SetVlanPri? || key.SetDscp? ||
    key.OutputTunnelPort? || key.Discard? || key.Copy?
  }

  /** `parse_opt` on an address, mask or prefix option (any other key is
      not this function's: Unknown). */
  function DecodeAddress(libc: Libc, api: Api, rule: MaskRule, key: Key, arg: string, a: Arguments): (r: Outcome)
    requires IsAddressKey(key)
    ensures !r.Unknown? && (r.Exit? ==> r.failure == InvalidValue(key))
  {
    var m, e := MatchOf(a.flow), a.flow.acl;
    match key
    case SourceIp6 =>
      if libc.inetPton6(arg).None? then Exit(InvalidValue(key))
      else Done(a.(ipv6Found := true), m.(sourceIp6 := libc.inetPton6(arg).value), e)
    case SrcIp6Prefix =>
      var p := PrefixLength(libc, arg, 128);
      if p.None? then Exit(InvalidValue(key))
      else Done(a, m.(sourceIp6Mask := CoverPrefix(m.sourceIp6Mask, p.value, PartialWordFor(rule, p.value))), e)
    case DestIp6 =>
      if libc.inetPton6(arg).None? then Exit(InvalidValue(key))
      else Done(a.(ipv6Found := true), m.(destIp6 := libc.inetPton6(arg).value), e)
    case DestIp6Prefix =>
      var p := PrefixLength(libc, arg, 128);
      if p.None? then Exit(InvalidValue(key))
      else Done(a, m.(destIp6Mask := CoverPrefix(m.destIp6Mask, p.value, PartialWordFor(rule, p.value))), e)
    case DestIp4 =>
      var x := Ip4Address(libc, arg);
      if x.None? then Exit(InvalidValue(key))
      else if x.value == 0 then Done(a, m.(destIp4 := 0, destIp4Mask := 0), e)
      else Done(a.(ipv4Found := true), m.(destIp4 := x.value), e)
    case DestIp4Prefix =>
      var p := PrefixLength(libc, arg, 32);
      if p.None? then Exit(InvalidValue(key))
      else Done(a, m.(destIp4Mask := Ip4MaskFor(rule, libc, p.value)), e)
    case SourceIp4 =>
      var x := Ip4Address(libc, arg);
      if x.None? then Exit(InvalidValue(key))
      else if x.value == 0 then Done(a, m.(sourceIp4 := 0, sourceIp4Mask := 0), e)
      else Done(a.(ipv4Found := true), m.(sourceIp4 := x.value), e)
    case SrcIp4Prefix =>
      var p := PrefixLength(libc, arg, 32);
      if p.None? then Exit(InvalidValue(key))
      else Done(a, m.(sourceIp4Mask := Ip4MaskFor(rule, libc, p.value)), e)
    case SrcMac =>
      var mac := ParseMac(arg);
      if mac.None? then Exit(InvalidValue(key))
      else if mac.value == ZeroMac then Done(a, m.(srcMac := ZeroMac, srcMacMask := ZeroMac), e)
      else Done(a, m.(srcMac := mac.value), e)
    case SrcMacMask =>
      var mac := ParseMac(arg);
      if mac.None? then Exit(InvalidValue(key)) else Done(a, m.(srcMacMask := mac.value), e)
    case DestMac =>
      var mac := ParseMac(arg);
      if mac.None? then Exit(InvalidValue(key))
      else if mac.value == ZeroMac then Done(a, m.(destMac := ZeroMac, destMacMask := ZeroMac), e)
      else Done(a, m.(destMac := mac.value), e)
    case DestMacMask =>
      var mac := ParseMac(arg);
      if mac.None? then Exit(InvalidValue(key)) else Done(a, m.(destMacMask := mac.value), e)
  }

  /** `parse_opt` on a numeric option (any other key: Unknown). */
  function DecodeField(libc: Libc, api: Api, rule: MaskRule, key: Key, arg: string, a: Arguments): (r: Outcome)
    requires IsFieldKey(key)
    ensures !r.Unknown? && (r.Exit? ==> r.failure == InvalidValue(key))
  {
    var m, e := MatchOf(a.flow), a.flow.acl;
    var n := libc.strtoul(arg);
    match key
    case Count =>
      if n.None? then Exit(InvalidValue(key)) else Continue(a.(count := ToInt32(n.value)))
    case Priority =>
      if n.None? then Exit(InvalidValue(key)) else Continue(a.(flow := a.flow.(priority := n.value)))
    case Intf =>
      if SameIgnoringCase("all", arg) then Done(a, m.(inPort := 0, inPortMask := 0), e)
      else if n.None? then Exit(InvalidValue(key))
      else Done(a, m.(inPort := n.value, inPortMask := api.inPortExactMask), e)
    case VlanId =>
      if n.None? || n.value > VlanIdMax then Exit(InvalidValue(key))
      else if n.value == 0 then Done(a, m.(vlanId := 0, vlanIdMask := 0), e)
      else Done(a, m.(vlanId := n.value), e)
    case TunnelId =>
      if n.None? then Exit(InvalidValue(key)) else Done(a, m.(tunnelId := n.value), e)
    case VlanPri =>
      if n.None? || n.value > VlanPrioMax then Exit(InvalidValue(key))
      else Done(a, m.(vlanPcp := n.value, vlanPcpMask := 0x7), e)
    case EtherType =>
      if n.None? || n.value >= InvalidEtherType then Exit(InvalidValue(key))
      else Done(a, m.(etherType := n.value), e)
    case Protocol =>
      if n.None? || n.value >= InvalidProtocol then Exit(InvalidValue(key))
      else if n.value == 0 then Done(a, m.(ipProto := 0, ipProtoMask := 0), e)
      else Done(a, m.(ipProto := n.value), e)
    case Dscp =>
      if n.None? || n.value > DscpMax then Exit(InvalidValue(key))
      else Done(a, m.(dscp := n.value, dscpMask := 0xFF), e)
    case SrcPort =>
      if n.None? || n.value > PortNumMax then Exit(InvalidValue(key))
      else if n.value == 0 then Done(a, m.(srcL4Port := 0, srcL4PortMask := 0), e)
      else Done(a, m.(srcL4Port := n.value), e)
    case DstPort =>
      if n.None? || n.value > PortNumMax then Exit(InvalidValue(key))
      else if n.value == 0 then Done(a, m.(destL4Port := 0, destL4PortMask := 0), e)
      else Done(a, m.(destL4Port := n.value), e)
    case IcmpType =>
      if n.None? then Exit(InvalidValue(key)) else Done(a, m.(icmpType := n.value, icmpTypeMask := 0xFF), e)
    case IcmpCode =>
      if n.None? then Exit(InvalidValue(key)) else Done(a, m.(icmpCode := n.value, icmpCodeMask := 0xFF), e)
  }

  /** `parse_opt` on an action option (any other key: Unknown). */
  function DecodeAction(libc: Libc, api: Api, rule: MaskRule, key: Key, arg: string, a: Arguments): (r: Outcome)
    requires IsActionKey(key)
    ensures !r.Unknown? && (r.Exit? ==> r.failure == InvalidValue(key))
  {
    var m, e := MatchOf(a.flow), a.flow.acl;
    var n := libc.strtoul(arg);
    match key
    case SetGroup =>
      if n.None? then Exit(InvalidValue(key)) else Done(a, m, e.(groupId := n.value))
    case SetQueue =>
      if n.None? then Exit(InvalidValue(key)) else Done(a, m, e.(queueId := n.value, queueIdAction := true))
    case SetVlanPri =>
      if n.None? then Exit(InvalidValue(key)) else Done(a, m, e.(vlanPcp := n.value, vlanPcpAction := true))
    case SetDscp =>
      if n.None? then Exit(InvalidValue(key)) else Done(a, m, e.(dscp := n.value, dscpAction := true))
    case OutputTunnelPort =>
      if n.None? then Exit(InvalidValue(key)) else Done(a, m, e.(outputTunnelPort := n.value))
    case Discard => Done(a, m, e.(clearActions := true))
    case Copy => Done(a, m, e.(outputPort := api.portController))
  }

  /** `parse_opt` on a positional word, on "no positional words", at the end
      of the input and on any key it does not know. */
  function DecodeControl(libc: Libc, api: Api, rule: MaskRule, key: Key, arg: string, a: Arguments): (r: Outcome)
    requires !IsAddressKey(key) && !IsFieldKey(key) && !IsActionKey(key)
    ensures r.Unknown? <==> key.Other?
    ensures r.Exit? && key.KeyArg? ==> r.failure == UnknownWord(arg)
  {
    var m := MatchOf(a.flow);
    match key
    case KeyArg =>
      if SameIgnoringCase("delete", arg) then Continue(a.(delete := true))
      else if SameIgnoringCase("list", arg) then Continue(a.(list := true))
      else Exit(UnknownWord(arg))
    case KeyNoArgs => Continue(a)
    case KeyEnd =>
      if a.ipv6Found && m.etherType == EtherTypeIp then Exit(Ipv6WithIpv4Ethertype)
      else if a.ipv4Found && m.etherType == EtherTypeIpv6 then Exit(Ipv4WithIpv6Ethertype)
      else Continue(a)
    case Other(_) => Unknown
  }

  /** What one call of `parse_opt` makes of the record `a`. */
  function Decode(libc: Libc, api: Api, rule: MaskRule, key: Key, arg: string, a: Arguments): (r: Outcome)
    ensures r.Unknown? <==> key.Other?
    ensures r.Exit? && key.KeyArg? ==> r.failure == UnknownWord(arg)
    ensures r.Exit? && !key.KeyArg? && !key.KeyEnd? ==> r.failure == InvalidValue(key)
  {
    if IsAddressKey(key) then DecodeAddress(libc, api, rule, key, arg, a)
    else if IsFieldKey(key) then DecodeField(libc, api, rule, key, arg, a)
    else if IsActionKey(key) then DecodeAction(libc, api, rule, key, arg, a)
    else DecodeControl(libc, api, rule, key, arg, a)
  }

  /** `parse_opt`. The IPv6 prefix options fill the four words of their
      mask with the parser's loop; every other key is decided by `Decode`. */
  method ParseOpt(libc: Libc, api: Api, rule: MaskRule, key: Key, arg: string, a: Arguments) returns (out: Outcome)
    ensures out == Decode(libc, api, rule, key, arg, a)
  {
    if key.SrcIp6Prefix? || key.DestIp6Prefix? {
      var n := libc.strtoul(arg);
      if n.None? || ToUint32(n.value) > 128 {
        return Exit(InvalidValue(key));
      }
      var m := MatchOf(a.flow);
      if key.SrcIp6Prefix? {
        var mask := Ip6MaskWords(rule, m.sourceIp6Mask, ToUint32(n.value));
        out := Done(a, m.(sourceIp6Mask := mask), a.flow.acl);
      } else {
        var mask := Ip6MaskWords(rule, m.destIp6Mask, ToUint32(n.value));
        out := Done(a, m.(destIp6Mask := mask), a.flow.acl);
      }
    } else {
      out := Decode(libc, api, rule, key, arg, a);
    }
  }
}
