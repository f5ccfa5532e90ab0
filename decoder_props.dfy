/** What the option decoder promises: per option, which inputs it rejects
    and what it stores; over a whole command line, the ranges and wildcard
    masks every accepted record keeps and the address-family check at the
    end of the input. */
module DecoderProperties {

  import opened Wrappers
  import opened AclTypes
  import opened MacText
  import opened PrefixMasks
  import opened OptionDecoder

  // ---------------------------------------------------------------------
  // Numeric options with a range.

  /** The numeric options the decoder range-checks. */
  predicate IsBoundedKey(key: Key)
  {
    key.VlanId? || key.VlanPri? || key.EtherType? || key.Protocol? ||
    key.Dscp? || key.SrcPort? || key.DstPort?
  }

  /** The largest value each range-checked option accepts. */
  function Limit(key: Key): nat
    requires IsBoundedKey(key)
  {
    match key
    case VlanId => VlanIdMax
    case VlanPri => VlanPrioMax
    case EtherType => InvalidEtherType - 1
    case Protocol => InvalidProtocol - 1
    case Dscp => DscpMax
    case SrcPort => PortNumMax
    case DstPort => PortNumMax
  }

  /** The match field a range-checked option stores its number in. */
  function BoundedField(key: Key, m: AclMatch): nat
    requires IsBoundedKey(key)
  {
    match key
    case VlanId => m.vlanId
    case VlanPri => m.vlanPcp
    case EtherType => m.etherType
    case Protocol => m.ipProto
    case Dscp => m.dscp
    case SrcPort => m.srcL4Port
    case DstPort => m.destL4Port
  }

  /** A range-checked option is rejected exactly when `strtoul` fails or the
      number is above the option's limit; otherwise the number is stored.
      `EtherTypeDecodes`, `ZeroIsWildcard` and `MaskAlwaysSet` give the
      whole new record. */
  lemma BoundedOptionDecodes(libc: Libc, api: Api, rule: MaskRule, key: Key, arg: string, a: Arguments)
    requires IsBoundedKey(key)
    ensures var n := libc.strtoul(arg);
      var out := Decode(libc, api, rule, key, arg, a);
      && (out.Exit? <==> n.None? || n.value > Limit(key))
      && (out.Continue? ==> BoundedField(key, MatchOf(out.args.flow)) == n.value)
  {
  }

  /** The ethertype option stores its number and changes nothing else. */
  lemma EtherTypeDecodes(libc: Libc, api: Api, rule: MaskRule, arg: string, a: Arguments)
    ensures var n, m := libc.strtoul(arg), MatchOf(a.flow);
      var out := Decode(libc, api, rule, EtherType, arg, a);
      && (out.Exit? <==> n.None? || n.value >= InvalidEtherType)
      && (out.Continue? ==> out.args == a.(flow := WithMatch(a.flow, m.(etherType := n.value))))
  {
  }

  /** The options whose value 0 means "any": VLAN id, IP protocol and the L4 ports. */
  predicate IsWildcardKey(key: Key)
  {
    key.VlanId? || key.Protocol? || key.SrcPort? || key.DstPort?
  }

  /** The mask paired with a wildcard option's field. */
  function WildcardMask(key: Key, m: AclMatch): nat
    requires IsWildcardKey(key)
  {
    match key
    case VlanId => m.vlanIdMask
    case Protocol => m.ipProtoMask
    case SrcPort => m.srcL4PortMask
    case DstPort => m.destL4PortMask
  }

  /** A zero VLAN id, protocol or L4 port clears its mask; any other value
      leaves the mask as it was. The value and its mask are all that change
      in the record. */
  lemma ZeroIsWildcard(libc: Libc, api: Api, rule: MaskRule, key: Key, arg: string, a: Arguments)
    requires IsWildcardKey(key)
    requires Decode(libc, api, rule, key, arg, a).Continue?
    ensures var b := Decode(libc, api, rule, key, arg, a).args;
      WildcardMask(key, MatchOf(b.flow)) ==
        if libc.strtoul(arg).value == 0 then 0 else WildcardMask(key, MatchOf(a.flow))
    ensures var n, m, b := libc.strtoul(arg).value, MatchOf(a.flow), Decode(libc, api, rule, key, arg, a).args;
      && (key.VlanId? ==> b == a.(flow := WithMatch(a.flow,
            if n == 0 then m.(vlanId := 0, vlanIdMask := 0) else m.(vlanId := n))))
      && (key.Protocol? ==> b == a.(flow := WithMatch(a.flow,
            if n == 0 then m.(ipProto := 0, ipProtoMask := 0) else m.(ipProto := n))))
      && (key.SrcPort? ==> b == a.(flow := WithMatch(a.flow,
            if n == 0 then m.(srcL4Port := 0, srcL4PortMask := 0) else m.(srcL4Port := n))))
      && (key.DstPort? ==> b == a.(flow := WithMatch(a.flow,
            if n == 0 then m.(destL4Port := 0, destL4PortMask := 0) else m.(destL4Port := n))))
  {
  }

  /** The options that set their mask whatever the value: VLAN priority,
      DSCP and the ICMP type and code. */
  predicate IsFixedMaskKey(key: Key)
  {
    key.VlanPri? || key.Dscp? || key.IcmpType? || key.IcmpCode?
  }

  /** The mask such an option stores and where it stores it. */
  function FixedMask(key: Key): nat
    requires IsFixedMaskKey(key)
  {
    if key.VlanPri? then 0x7 else 0xFF
  }

  function FixedMaskField(key: Key, m: AclMatch): nat
    requires IsFixedMaskKey(key)
  {
    match key
    case VlanPri => m.vlanPcpMask
    case Dscp => m.dscpMask
    case IcmpType => m.icmpTypeMask
    case IcmpCode => m.icmpCodeMask
  }

  /** VLAN priority, DSCP and the ICMP type and code always set their mask
      (0x7 or 0xFF), zero values included: a zero DSCP is matched, not a
      wildcard. The VLAN priority and DSCP options change nothing else in
      the record (`UnboundedOptionDecodes` gives the ICMP ones). */
  lemma MaskAlwaysSet(libc: Libc, api: Api, rule: MaskRule, key: Key, arg: string, a: Arguments)
    requires IsFixedMaskKey(key)
    ensures var out := Decode(libc, api, rule, key, arg, a);
      out.Continue? ==> FixedMaskField(key, MatchOf(out.args.flow)) == FixedMask(key)
    ensures var out, n, m := Decode(libc, api, rule, key, arg, a), libc.strtoul(arg), MatchOf(a.flow);
      && (out.Continue? && key.VlanPri? ==>
            out.args == a.(flow := WithMatch(a.flow, m.(vlanPcp := n.value, vlanPcpMask := 0x7))))
      && (out.Continue? && key.Dscp? ==>
            out.args == a.(flow := WithMatch(a.flow, m.(dscp := n.value, dscpMask := 0xFF))))
  {
  }

  // ---------------------------------------------------------------------
  // Numeric options without a range, and the actions.

  /** The count, the priority, the tunnel id and the ICMP type and code are
      rejected exactly when `strtoul` fails; otherwise the number is stored
      as read (the count cut to an `int`), with the ICMP mask 0xFF, and the
      rest of the record is unchanged. */
  lemma UnboundedOptionDecodes(libc: Libc, api: Api, rule: MaskRule, key: Key, arg: string, a: Arguments)
    requires key.Count? || key.Priority? || key.TunnelId? || key.IcmpType? || key.IcmpCode?
    ensures var n, m := libc.strtoul(arg), MatchOf(a.flow);
      var out := Decode(libc, api, rule, key, arg, a);
      && (out.Exit? <==> n.None?)
      && (out.Continue? && key.Count? ==> out.args == a.(count := ToInt32(n.value)))
      && (out.Continue? && key.Priority? ==> out.args == a.(flow := a.flow.(priority := n.value)))
      && (out.Continue? && key.TunnelId? ==> out.args == a.(flow := WithMatch(a.flow, m.(tunnelId := n.value))))
      && (out.Continue? && key.IcmpType? ==>
            out.args == a.(flow := WithMatch(a.flow, m.(icmpType := n.value, icmpTypeMask := 0xFF))))
      && (out.Continue? && key.IcmpCode? ==>
            out.args == a.(flow := WithMatch(a.flow, m.(icmpCode := n.value, icmpCodeMask := 0xFF))))
  {
  }

  /** The interface option: "all" in any case matches every port (port 0,
      mask 0); any other text is rejected exactly when `strtoul` fails and
      otherwise matches that port exactly. Nothing else changes. */
  lemma IntfDecodes(libc: Libc, api: Api, rule: MaskRule, arg: string, a: Arguments)
    ensures var n, m := libc.strtoul(arg), MatchOf(a.flow);
      var out := Decode(libc, api, rule, Intf, arg, a);
      && (out.Exit? <==> !SameIgnoringCase("all", arg) && n.None?)
      && (out.Continue? && SameIgnoringCase("all", arg) ==>
            out.args == a.(flow := WithMatch(a.flow, m.(inPort := 0, inPortMask := 0))))
      && (out.Continue? && !SameIgnoringCase("all", arg) ==>
            out.args == a.(flow := WithMatch(a.flow, m.(inPort := n.value, inPortMask := api.inPortExactMask))))
  {
  }

  /** The action options that take a number: rejected exactly when
      `strtoul` fails; otherwise each stores the number as its action value,
      and the queue, VLAN priority and DSCP actions also set their flag.
      The match and the rest of the record are unchanged. */
  lemma ActionOptionDecodes(libc: Libc, api: Api, rule: MaskRule, key: Key, arg: string, a: Arguments)
    requires key.SetGroup? || key.SetQueue? || key.SetVlanPri? || key.SetDscp? || key.OutputTunnelPort?
    ensures var n, e := libc.strtoul(arg), a.flow.acl;
      var out := Decode(libc, api, rule, key, arg, a);
      && (out.Exit? <==> n.None?)
      && (out.Continue? ==> out.args == a.(flow := a.flow.(acl := out.args.flow.acl)))
      && (out.Continue? && key.SetGroup? ==> out.args.flow.acl == e.(groupId := n.value))
      && (out.Continue? && key.SetQueue? ==> out.args.flow.acl == e.(queueId := n.value, queueIdAction := true))
      && (out.Continue? && key.SetVlanPri? ==> out.args.flow.acl == e.(vlanPcp := n.value, vlanPcpAction := true))
      && (out.Continue? && key.SetDscp? ==> out.args.flow.acl == e.(dscp := n.value, dscpAction := true))
      && (out.Continue? && key.OutputTunnelPort? ==> out.args.flow.acl == e.(outputTunnelPort := n.value))
  {
    assert Decode(libc, api, rule, key, arg, a) == DecodeAction(libc, api, rule, key, arg, a);
  }

  /** Discard and copy-to-controller take no number and are always
      accepted: discard sets the clear-actions flag, copy sends the packet
      to the controller port; nothing else changes. */
  lemma FixedActionDecodes(libc: Libc, api: Api, rule: MaskRule, key: Key, arg: string, a: Arguments)
    requires key.Discard? || key.Copy?
    ensures var e := a.flow.acl;
      var out := Decode(libc, api, rule, key, arg, a);
      && out.Continue?
      && (key.Discard? ==> out.args == a.(flow := a.flow.(acl := e.(clearActions := true))))
      && (key.Copy? ==> out.args == a.(flow := a.flow.(acl := e.(outputPort := api.portController))))
  {
  }

  // ---------------------------------------------------------------------
  // Addresses.

  /** The IPv4 address field an IPv4 address option writes, and its mask. */
  function Ip4Field(key: Key, m: AclMatch): nat
    requires key.SourceIp4? || key.DestIp4?
  {
    if key.SourceIp4? then m.sourceIp4 else m.destIp4
  }

  function Ip4MaskField(key: Key, m: AclMatch): Word32
    requires key.SourceIp4? || key.DestIp4?
  {
    if key.SourceIp4? then m.sourceIp4Mask else m.destIp4Mask
  }

  /** An IPv4 address is taken as dotted-quad text or else as the number
      `strtoul` reads, and is rejected only when both fail. A zero address
      clears its mask and leaves `ipv4Found` alone; any other address sets
      `ipv4Found` and leaves the mask alone. Nothing else changes. */
  lemma Ip4AddressDecodes(libc: Libc, api: Api, rule: MaskRule, key: Key, arg: string, a: Arguments)
    requires key.SourceIp4? || key.DestIp4?
    ensures var out := Decode(libc, api, rule, key, arg, a);
      && (out.Exit? <==> libc.inetPton4(arg).None? && libc.strtoul(arg).None?)
      && (out.Continue? ==>
            var x, b, m := Ip4Address(libc, arg).value, out.args, MatchOf(a.flow);
            && Ip4Field(key, MatchOf(b.flow)) == x
            && (libc.inetPton4(arg).Some? ==> x == libc.inetPton4(arg).value)
            && (libc.inetPton4(arg).None? ==> x == libc.strtoul(arg).value)
            && (x == 0 ==> Ip4MaskField(key, MatchOf(b.flow)) == 0 && b.ipv4Found == a.ipv4Found)
            && (x != 0 ==> Ip4MaskField(key, MatchOf(b.flow)) == Ip4MaskField(key, MatchOf(a.flow)) && b.ipv4Found)
            && (key.SourceIp4? ==> b == if x == 0 then a.(flow := WithMatch(a.flow, m.(sourceIp4 := 0, sourceIp4Mask := 0)))
                                        else a.(ipv4Found := true, flow := WithMatch(a.flow, m.(sourceIp4 := x))))
            && (key.DestIp4? ==> b == if x == 0 then a.(flow := WithMatch(a.flow, m.(destIp4 := 0, destIp4Mask := 0)))
                                      else a.(ipv4Found := true, flow := WithMatch(a.flow, m.(destIp4 := x)))))
  {
  }

  /** An IPv4 prefix length is rejected when `strtoul` fails or the 32-bit
      length exceeds 32. Otherwise the mask has exactly the p leading bits
      set: always for the intended masks, and for the parser's own
      expression whenever p >= 1; for p = 0 the parser's expression gives
      whatever the host makes of `~0 << 32`. Only the mask changes. */
  lemma Ip4PrefixDecodes(libc: Libc, api: Api, rule: MaskRule, key: Key, arg: string, a: Arguments)
    requires key.SrcIp4Prefix? || key.DestIp4Prefix?
    ensures var out := Decode(libc, api, rule, key, arg, a);
      var n := libc.strtoul(arg);
      && (out.Exit? <==> n.None? || ToUint32(n.value) > 32)
      && (out.Continue? ==>
            var p, m := ToUint32(n.value), MatchOf(out.args.flow);
            var mask := if key.SrcIp4Prefix? then m.sourceIp4Mask else m.destIp4Mask;
            var m0 := MatchOf(a.flow);
            && ((rule == Intended || p >= 1) ==> mask == BitsValue(PrefixBits(p, 32)))
            && (rule == AsWritten && p == 0 ==> mask == libc.fullShift)
            && out.args == a.(flow := WithMatch(a.flow, if key.SrcIp4Prefix? then m0.(sourceIp4Mask := mask)
                                                        else m0.(destIp4Mask := mask))))
  {
  }

  /** The IPv6 mask a prefix option writes. */
  function Ip6MaskField(key: Key, m: AclMatch): Ip6Mask
    requires key.SrcIp6Prefix? || key.DestIp6Prefix?
  {
    if key.SrcIp6Prefix? then m.sourceIp6Mask else m.destIp6Mask
  }

  /** An IPv6 prefix length is rejected when `strtoul` fails or the 32-bit
      length exceeds 128. Otherwise the words wholly inside the prefix become
      all ones, the words past it keep their value, and the word it ends
      inside gets p % 32 leading bits (intended) or 32 - p % 32 leading bits
      (the parser's `~0 << (p % 32)`). Only the mask changes. */
  lemma Ip6PrefixDecodes(libc: Libc, api: Api, rule: MaskRule, key: Key, arg: string, a: Arguments)
    requires key.SrcIp6Prefix? || key.DestIp6Prefix?
    ensures var out := Decode(libc, api, rule, key, arg, a);
      var n := libc.strtoul(arg);
      && (out.Exit? <==> n.None? || ToUint32(n.value) > 128)
      && (out.Continue? ==>
            var p := ToUint32(n.value);
            var before, after := Ip6MaskField(key, MatchOf(a.flow)), Ip6MaskField(key, MatchOf(out.args.flow));
            && (forall w :: 0 <= w < p / 32 ==> after[w] == AllOnes32)
            && (forall w :: p / 32 < w < 4 ==> after[w] == before[w])
            && (p % 32 == 0 && p < 128 ==> after[p / 32] == before[p / 32])
            && (p % 32 != 0 ==>
                  after[p / 32] == PrefixWord(if rule == Intended then p % 32 else 32 - p % 32))
            && var m := MatchOf(a.flow);
               out.args == a.(flow := WithMatch(a.flow, if key.SrcIp6Prefix? then m.(sourceIp6Mask := after)
                                                         else m.(destIp6Mask := after))))
  {
    var out := Decode(libc, api, rule, key, arg, a);
    if out.Continue? {
      var p := ToUint32(libc.strtoul(arg).value);
      if p % 32 != 0 {
        ShiftedOnesIsPrefix(p % 32);
      }
    }
  }

  /** An IPv6 address option is rejected exactly when `inet_pton` rejects the
      text; otherwise the 16 bytes are stored and `ipv6Found` is set, and
      nothing else changes. */
  lemma Ip6AddressDecodes(libc: Libc, api: Api, rule: MaskRule, key: Key, arg: string, a: Arguments)
    requires key.SourceIp6? || key.DestIp6?
    ensures var out := Decode(libc, api, rule, key, arg, a);
      && (out.Exit? <==> libc.inetPton6(arg).None?)
      && (out.Continue? ==>
            var m, m0, v := MatchOf(out.args.flow), MatchOf(a.flow), libc.inetPton6(arg).value;
            && out.args.ipv6Found
            && (if key.SourceIp6? then m.sourceIp6 else m.destIp6) == v
            && out.args == a.(ipv6Found := true, flow := WithMatch(a.flow, if key.SourceIp6? then m0.(sourceIp6 := v)
                                                                          else m0.(destIp6 := v))))
  {
  }

  /** The options that carry a MAC address or a MAC mask. */
  predicate IsMacKey(key: Key)
  {
    key.SrcMac? || key.DestMac? || key.SrcMacMask? || key.DestMacMask?
  }

  /** The MAC address a MAC option writes, and its paired mask. */
  function MacField(key: Key, m: AclMatch): Mac
    requires key.SrcMac? || key.DestMac?
  {
    if key.SrcMac? then m.srcMac else m.destMac
  }

  function MacMaskField(key: Key, m: AclMatch): Mac
    requires key.SrcMac? || key.DestMac?
  {
    if key.SrcMac? then m.srcMacMask else m.destMacMask
  }

  /** A MAC option is rejected exactly when none of the three layouts reads
      the text; otherwise the address is stored, and an all-zero address
      also zeroes the paired mask while any other address leaves it alone.
      Nothing else changes. */
  lemma MacOptionDecodes(libc: Libc, api: Api, rule: MaskRule, key: Key, arg: string, a: Arguments)
    requires key.SrcMac? || key.DestMac?
    ensures var out := Decode(libc, api, rule, key, arg, a);
      && (out.Exit? <==> ParseMac(arg).None?)
      && (out.Continue? ==>
            var mac, m := ParseMac(arg).value, MatchOf(out.args.flow);
            && MacField(key, m) == mac
            && MacMaskField(key, m) == (if mac == ZeroMac then ZeroMac else MacMaskField(key, MatchOf(a.flow)))
            && var m0 := MatchOf(a.flow);
               out.args == a.(flow := WithMatch(a.flow, if key.SrcMac? then m0.(srcMac := m.srcMac, srcMacMask := m.srcMacMask)
                                                         else m0.(destMac := m.destMac, destMacMask := m.destMacMask))))
  {
  }

  /** Text the MAC decoder reads as `mac` makes the MAC option store `mac`. */
  lemma MacOptionStores(libc: Libc, api: Api, rule: MaskRule, key: Key, text: string, mac: Mac, a: Arguments)
    requires key.SrcMac? || key.DestMac?
    requires ParseMac(text) == Some(mac)
    ensures var out := Decode(libc, api, rule, key, text, a);
      out.Continue? && MacField(key, MatchOf(out.args.flow)) == mac
  {
    var out := Decode(libc, api, rule, key, text, a);
    var m, e := MatchOf(a.flow), a.flow.acl;
    assert out == DecodeAddress(libc, api, rule, key, text, a);
    if key.SrcMac? {
      m := if mac == ZeroMac then m.(srcMac := ZeroMac, srcMacMask := ZeroMac) else m.(srcMac := mac);
    } else {
      m := if mac == ZeroMac then m.(destMac := ZeroMac, destMacMask := ZeroMac) else m.(destMac := mac);
    }
    assert out == Done(a, m, e);
  }

  /** Whichever layout the address is written in, the MAC option stores the
      same six bytes. */
  lemma MacOptionLayouts(libc: Libc, api: Api, rule: MaskRule, key: Key, mac: Mac, a: Arguments)
    requires key.SrcMac? || key.DestMac?
    ensures var out := Decode(libc, api, rule, key, OctetText(mac, ':'), a);
      out.Continue? && MacField(key, MatchOf(out.args.flow)) == mac
    ensures var out := Decode(libc, api, rule, key, OctetText(mac, '-'), a);
      out.Continue? && MacField(key, MatchOf(out.args.flow)) == mac
    ensures var out := Decode(libc, api, rule, key, DottedText(mac), a);
      out.Continue? && MacField(key, MatchOf(out.args.flow)) == mac
  {
    LayoutsAgree(mac);
    MacOptionStores(libc, api, rule, key, OctetText(mac, ':'), mac, a);
    MacOptionStores(libc, api, rule, key, OctetText(mac, '-'), mac, a);
    MacOptionStores(libc, api, rule, key, DottedText(mac), mac, a);
  }

  /** A MAC mask option is rejected exactly when none of the three layouts
      reads the text; otherwise the address read is stored as the mask, and
      nothing else changes. */
  lemma MacMaskOptionDecodes(libc: Libc, api: Api, rule: MaskRule, key: Key, arg: string, a: Arguments)
    requires key.SrcMacMask? || key.DestMacMask?
    ensures var mac, m := ParseMac(arg), MatchOf(a.flow);
      var out := Decode(libc, api, rule, key, arg, a);
      && (out.Exit? <==> mac.None?)
      && (out.Continue? && key.SrcMacMask? ==> out.args == a.(flow := WithMatch(a.flow, m.(srcMacMask := mac.value))))
      && (out.Continue? && key.DestMacMask? ==> out.args == a.(flow := WithMatch(a.flow, m.(destMacMask := mac.value))))
  {
  }

  // ---------------------------------------------------------------------
  // Positional words, other keys and the end of the input.

  /** `delete` and `list`, in any case, set their flags; any other word ends
      the process. */
  lemma PositionalWords(libc: Libc, api: Api, rule: MaskRule, arg: string, a: Arguments)
    ensures var out := Decode(libc, api, rule, KeyArg, arg, a);
      && (SameIgnoringCase("delete", arg) ==> out == Continue(a.(delete := true)))
      && (SameIgnoringCase("list", arg) ==> out == Continue(a.(list := true)))
      && (!SameIgnoringCase("delete", arg) && !SameIgnoringCase("list", arg) ==> out == Exit(UnknownWord(arg)))
  {
  }

  /** `DELETE`, `Delete` and `delete` are the same word. */
  lemma DeleteInAnyCase()
    ensures SameIgnoringCase("delete", "DELETE") && SameIgnoringCase("delete", "Delete")
    ensures !SameIgnoringCase("delete", "deleted") && !SameIgnoringCase("list", "lost")
  {
    assert Lower('D') == 'd' && Lower('E') == 'e' && Lower('L') == 'l' && Lower('T') == 't';
    assert "lost"[1] == 'o';
  }

  /** The address family and the ethertype must agree: no IPv6 address with
      the IPv4 ethertype 0x0800 and no IPv4 address with the IPv6 ethertype
      0x86DD. */
  predicate FamilyConsistent(a: Arguments)
  {
    !(a.ipv6Found && MatchOf(a.flow).etherType == EtherTypeIp) &&
    !(a.ipv4Found && MatchOf(a.flow).etherType == EtherTypeIpv6)
  }

  /** At the end of the input the record is accepted unchanged exactly when
      it is family-consistent; the IPv6 check comes first. */
  lemma EndOfInput(libc: Libc, api: Api, rule: MaskRule, arg: string, a: Arguments)
    ensures var out := Decode(libc, api, rule, KeyEnd, arg, a);
      && (out == Continue(a) <==> FamilyConsistent(a))
      && (out == Exit(Ipv6WithIpv4Ethertype) <==> a.ipv6Found && MatchOf(a.flow).etherType == EtherTypeIp)
      && (out == Exit(Ipv4WithIpv6Ethertype) <==> a.ipv4Found && MatchOf(a.flow).etherType == EtherTypeIpv6)
  {
  }

  // ---------------------------------------------------------------------
  // A whole command line.

  /** One option as argp hands it to the parser: its key and its text. */
  datatype Opt = Opt(key: Key, arg: string)

  /** The parser over a command line: each option in turn, stopping at the
      first error; a key handed back to argp leaves the record as it was;
      then the end of the input. */
  function ParseAll(libc: Libc, api: Api, rule: MaskRule, opts: seq<Opt>, a: Arguments): Outcome
    decreases |opts|
  {
    if |opts| == 0 then Decode(libc, api, rule, KeyEnd, "", a)
    else
      match Decode(libc, api, rule, opts[0].key, opts[0].arg, a)
      case Continue(b) => ParseAll(libc, api, rule, opts[1..], b)
      case Unknown => ParseAll(libc, api, rule, opts[1..], a)
      case Exit(f) => Exit(f)
  }

  /** The ranges and wildcard masks the decoder keeps: each range-checked
      field within its range, and a zero VLAN id, protocol or L4 port always
      paired with a zero mask. */
  predicate WellFormed(a: Arguments)
  {
    var m := MatchOf(a.flow);
    && m.vlanId <= VlanIdMax && m.vlanPcp <= VlanPrioMax && m.dscp <= DscpMax
    && m.etherType < InvalidEtherType && m.ipProto < InvalidProtocol
    && m.srcL4Port <= PortNumMax && m.destL4Port <= PortNumMax
    && (m.vlanId == 0 ==> m.vlanIdMask == 0)
    && (m.ipProto == 0 ==> m.ipProtoMask == 0)
    && (m.srcL4Port == 0 ==> m.srcL4PortMask == 0)
    && (m.destL4Port == 0 ==> m.destL4PortMask == 0)
  }

  lemma DefaultsWellFormed(api: Api)
    ensures WellFormed(DefaultArguments(api)) && FamilyConsistent(DefaultArguments(api))
  {
  }

  /** What every accepted option keeps: a well-formed record stays well
      formed, only the ethertype option changes the ethertype, and neither
      `ipv4Found` nor `ipv6Found` is ever cleared. */
  predicate Keeps(key: Key, a: Arguments, b: Arguments)
  {
    && (WellFormed(a) ==> WellFormed(b))
    && (!key.EtherType? ==> MatchOf(b.flow).etherType == MatchOf(a.flow).etherType)
    && (a.ipv4Found ==> b.ipv4Found)
    && (a.ipv6Found ==> b.ipv6Found)
  }

  /** The fields `WellFormed` and the family check read are the same in both matches. */
  predicate SameCheckedFields(m: AclMatch, n: AclMatch)
  {
    && m.vlanId == n.vlanId && m.vlanIdMask == n.vlanIdMask && m.vlanPcp == n.vlanPcp
    && m.dscp == n.dscp && m.etherType == n.etherType
    && m.ipProto == n.ipProto && m.ipProtoMask == n.ipProtoMask
    && m.srcL4Port == n.srcL4Port && m.srcL4PortMask == n.srcL4PortMask
    && m.destL4Port == n.destL4Port && m.destL4PortMask == n.destL4PortMask
  }

  /** An option that changes none of the checked fields and clears neither
      family flag keeps the record. */
  lemma StoreKeeps(key: Key, a: Arguments, b: Arguments)
    requires SameCheckedFields(MatchOf(a.flow), MatchOf(b.flow))
    requires (a.ipv4Found ==> b.ipv4Found) && (a.ipv6Found ==> b.ipv6Found)
    ensures Keeps(key, a, b)
  {
  }

  lemma IpOptionKeeps(libc: Libc, api: Api, rule: MaskRule, key: Key, arg: string, a: Arguments)
    requires IsAddressKey(key) && !IsMacKey(key) && Decode(libc, api, rule, key, arg, a).Continue?
    ensures Keeps(key, a, Decode(libc, api, rule, key, arg, a).args)
  {
    var out := Decode(libc, api, rule, key, arg, a);
    var m, e := MatchOf(a.flow), a.flow.acl;
    var b := a;
    match key {
      case SourceIp6 =>
        b := a.(ipv6Found := true);
        m := m.(sourceIp6 := libc.inetPton6(arg).value);
      case DestIp6 =>
        b := a.(ipv6Found := true);
        m := m.(destIp6 := libc.inetPton6(arg).value);
      case SrcIp6Prefix =>
        var p := PrefixLength(libc, arg, 128).value;
        m := m.(sourceIp6Mask := CoverPrefix(m.sourceIp6Mask, p, PartialWordFor(rule, p)));
      case DestIp6Prefix =>
        var p := PrefixLength(libc, arg, 128).value;
        m := m.(destIp6Mask := CoverPrefix(m.destIp6Mask, p, PartialWordFor(rule, p)));
      case SourceIp4 =>
        var x := Ip4Address(libc, arg).value;
        if x == 0 {
          m := m.(sourceIp4 := 0, sourceIp4Mask := 0);
        } else {
          b := a.(ipv4Found := true);
          m := m.(sourceIp4 := x);
        }
      case DestIp4 =>
        var x := Ip4Address(libc, arg).value;
        if x == 0 {
          m := m.(destIp4 := 0, destIp4Mask := 0);
        } else {
          b := a.(ipv4Found := true);
          m := m.(destIp4 := x);
        }
      case SrcIp4Prefix =>
        m := m.(sourceIp4Mask := Ip4MaskFor(rule, libc, PrefixLength(libc, arg, 32).value));
      case DestIp4Prefix =>
        m := m.(destIp4Mask := Ip4MaskFor(rule, libc, PrefixLength(libc, arg, 32).value));
    }
    assert out == Done(b, m, e);
    StoreKeeps(key, a, out.args);
  }

  lemma MacOptionKeeps(libc: Libc, api: Api, rule: MaskRule, key: Key, arg: string, a: Arguments)
    requires IsMacKey(key) && Decode(libc, api, rule, key, arg, a).Continue?
    ensures Keeps(key, a, Decode(libc, api, rule, key, arg, a).args)
  {
    var out := Decode(libc, api, rule, key, arg, a);
    var m, e := MatchOf(a.flow), a.flow.acl;
    match key {
      case SrcMac =>
        var mac := ParseMac(arg).value;
        m := if mac == ZeroMac then m.(srcMac := ZeroMac, srcMacMask := ZeroMac) else m.(srcMac := mac);
      case DestMac =>
        var mac := ParseMac(arg).value;
        m := if mac == ZeroMac then m.(destMac := ZeroMac, destMacMask := ZeroMac) else m.(destMac := mac);
      case SrcMacMask =>
        m := m.(srcMacMask := ParseMac(arg).value);
      case DestMacMask =>
        m := m.(destMacMask := ParseMac(arg).value);
    }
    assert out == Done(a, m, e);
    StoreKeeps(key, a, out.args);
  }

  lemma AddressOptionKeeps(libc: Libc, api: Api, rule: MaskRule, key: Key, arg: string, a: Arguments)
    requires IsAddressKey(key) && Decode(libc, api, rule, key, arg, a).Continue?
    ensures Keeps(key, a, Decode(libc, api, rule, key, arg, a).args)
  {
    if IsMacKey(key) {
      MacOptionKeeps(libc, api, rule, key, arg, a);
    } else {
      IpOptionKeeps(libc, api, rule, key, arg, a);
    }
  }

  lemma UnboundedOptionKeeps(libc: Libc, api: Api, rule: MaskRule, key: Key, arg: string, a: Arguments)
    requires IsFieldKey(key) && !IsBoundedKey(key) && Decode(libc, api, rule, key, arg, a).Continue?
    ensures Keeps(key, a, Decode(libc, api, rule, key, arg, a).args)
  {
    var out := Decode(libc, api, rule, key, arg, a);
    var m, e := MatchOf(a.flow), a.flow.acl;
    var n := libc.strtoul(arg);
    assert out == DecodeField(libc, api, rule, key, arg, a);
    match key {
      case Count =>
        assert out == Continue(a.(count := ToInt32(n.value)));
      case Priority =>
        assert out == Continue(a.(flow := a.flow.(priority := n.value)));
      case Intf =>
        m := if SameIgnoringCase("all", arg) then m.(inPort := 0, inPortMask := 0)
          else m.(inPort := n.value, inPortMask := api.inPortExactMask);
        assert out == Done(a, m, e);
      case TunnelId =>
        assert out == Done(a, m.(tunnelId := n.value), e);
      case IcmpType =>
        assert out == Done(a, m.(icmpType := n.value, icmpTypeMask := 0xFF), e);
      case IcmpCode =>
        assert out == Done(a, m.(icmpCode := n.value, icmpCodeMask := 0xFF), e);
    }
    StoreKeeps(key, a, out.args);
  }

  lemma WildcardOptionKeeps(libc: Libc, api: Api, rule: MaskRule, key: Key, arg: string, a: Arguments)
    requires IsWildcardKey(key) && Decode(libc, api, rule, key, arg, a).Continue?
    ensures Keeps(key, a, Decode(libc, api, rule, key, arg, a).args)
  {
    var out := Decode(libc, api, rule, key, arg, a);
    var m, e := MatchOf(a.flow), a.flow.acl;
    var n := libc.strtoul(arg);
    assert out == DecodeField(libc, api, rule, key, arg, a);
    match key {
      case VlanId =>
        assert n.value <= VlanIdMax;
        m := if n.value == 0 then m.(vlanId := 0, vlanIdMask := 0) else m.(vlanId := n.value);
        assert out == Done(a, m, e);
      case Protocol =>
        assert n.value < InvalidProtocol;
        m := if n.value == 0 then m.(ipProto := 0, ipProtoMask := 0) else m.(ipProto := n.value);
        assert out == Done(a, m, e);
      case SrcPort =>
        assert n.value <= PortNumMax;
        m := if n.value == 0 then m.(srcL4Port := 0, srcL4PortMask := 0) else m.(srcL4Port := n.value);
        assert out == Done(a, m, e);
      case DstPort =>
        assert n.value <= PortNumMax;
        m := if n.value == 0 then m.(destL4Port := 0, destL4PortMask := 0) else m.(destL4Port := n.value);
        assert out == Done(a, m, e);
    }
  }

  lemma RangedOptionKeeps(libc: Libc, api: Api, rule: MaskRule, key: Key, arg: string, a: Arguments)
    requires IsBoundedKey(key) && !IsWildcardKey(key) && Decode(libc, api, rule, key, arg, a).Continue?
    ensures Keeps(key, a, Decode(libc, api, rule, key, arg, a).args)
  {
    var out := Decode(libc, api, rule, key, arg, a);
    var m, e := MatchOf(a.flow), a.flow.acl;
    var n := libc.strtoul(arg);
    assert out == DecodeField(libc, api, rule, key, arg, a);
    match key {
      case VlanPri =>
        assert out == Done(a, m.(vlanPcp := n.value, vlanPcpMask := 0x7), e) && n.value <= VlanPrioMax;
      case EtherType =>
        assert out == Done(a, m.(etherType := n.value), e) && n.value < InvalidEtherType;
      case Dscp =>
        assert out == Done(a, m.(dscp := n.value, dscpMask := 0xFF), e) && n.value <= DscpMax;
    }
  }

  lemma BoundedOptionKeeps(libc: Libc, api: Api, rule: MaskRule, key: Key, arg: string, a: Arguments)
    requires IsBoundedKey(key) && Decode(libc, api, rule, key, arg, a).Continue?
    ensures Keeps(key, a, Decode(libc, api, rule, key, arg, a).args)
  {
    if IsWildcardKey(key) {
      WildcardOptionKeeps(libc, api, rule, key, arg, a);
    } else {
      RangedOptionKeeps(libc, api, rule, key, arg, a);
    }
  }

  lemma FieldOptionKeeps(libc: Libc, api: Api, rule: MaskRule, key: Key, arg: string, a: Arguments)
    requires IsFieldKey(key) && Decode(libc, api, rule, key, arg, a).Continue?
    ensures Keeps(key, a, Decode(libc, api, rule, key, arg, a).args)
  {
    if IsBoundedKey(key) {
      BoundedOptionKeeps(libc, api, rule, key, arg, a);
    } else {
      UnboundedOptionKeeps(libc, api, rule, key, arg, a);
    }
  }

  lemma ActionOptionKeeps(libc: Libc, api: Api, rule: MaskRule, key: Key, arg: string, a: Arguments)
    requires IsActionKey(key) && Decode(libc, api, rule, key, arg, a).Continue?
    ensures Keeps(key, a, Decode(libc, api, rule, key, arg, a).args)
  {
    var out := Decode(libc, api, rule, key, arg, a);
    assert out == DecodeAction(libc, api, rule, key, arg, a);
    StoreKeeps(key, a, out.args);
  }

  /** Every accepted option keeps the ranges, the wildcard masks, the
      ethertype (unless it is the ethertype option) and the family flags. */
  lemma DecodeKeeps(libc: Libc, api: Api, rule: MaskRule, key: Key, arg: string, a: Arguments)
    requires Decode(libc, api, rule, key, arg, a).Continue?
    ensures Keeps(key, a, Decode(libc, api, rule, key, arg, a).args)
  {
    if IsAddressKey(key) {
      AddressOptionKeeps(libc, api, rule, key, arg, a);
    } else if IsFieldKey(key) {
      FieldOptionKeeps(libc, api, rule, key, arg, a);
    } else if IsActionKey(key) {
      ActionOptionKeeps(libc, api, rule, key, arg, a);
    }
  }

  /** A command line the parser accepts leaves a well-formed, family-consistent record. */
  lemma {:induction false} ParseAllAccepted(libc: Libc, api: Api, rule: MaskRule, opts: seq<Opt>, a: Arguments)
    requires WellFormed(a)
    requires ParseAll(libc, api, rule, opts, a).Continue?
    ensures WellFormed(ParseAll(libc, api, rule, opts, a).args)
    ensures FamilyConsistent(ParseAll(libc, api, rule, opts, a).args)
    decreases |opts|
  {
    if |opts| == 0 {
      EndOfInput(libc, api, rule, "", a);
    } else {
      var out := Decode(libc, api, rule, opts[0].key, opts[0].arg, a);
      if out.Continue? {
        DecodeKeeps(libc, api, rule, opts[0].key, opts[0].arg, a);
        ParseAllAccepted(libc, api, rule, opts[1..], out.args);
      } else {
        ParseAllAccepted(libc, api, rule, opts[1..], a);
      }
    }
  }

  /** The option names an IPv6 address. */
  predicate IsIp6AddressKey(key: Key)
  {
    key.SourceIp6? || key.DestIp6?
  }

  /** With the default ethertype 0x0800 and no ethertype option, a command
      line that names an IPv6 address is never accepted. */
  lemma {:induction false} Ipv6NeedsEthertype(libc: Libc, api: Api, rule: MaskRule, opts: seq<Opt>, a: Arguments)
    requires MatchOf(a.flow).etherType == EtherTypeIp
    requires forall i :: 0 <= i < |opts| ==> !opts[i].key.EtherType?
    requires a.ipv6Found || exists i :: 0 <= i < |opts| && IsIp6AddressKey(opts[i].key)
    ensures !ParseAll(libc, api, rule, opts, a).Continue?
    decreases |opts|
  {
    if |opts| > 0 {
      var o := opts[0];
      var out := Decode(libc, api, rule, o.key, o.arg, a);
      var later := a.ipv6Found || IsIp6AddressKey(o.key) ||
        exists i :: 0 <= i < |opts[1..]| && IsIp6AddressKey(opts[1..][i].key);
      assert later by {
        if !a.ipv6Found && !IsIp6AddressKey(o.key) {
          var i :| 0 <= i < |opts| && IsIp6AddressKey(opts[i].key);
          assert i > 0 && IsIp6AddressKey(opts[1..][i - 1].key);
        }
      }
      if out.Continue? {
        DecodeKeeps(libc, api, rule, o.key, o.arg, a);
        if IsIp6AddressKey(o.key) {
          Ip6AddressDecodes(libc, api, rule, o.key, o.arg, a);
        }
        Ipv6NeedsEthertype(libc, api, rule, opts[1..], out.args);
      } else if out.Unknown? {
        Ipv6NeedsEthertype(libc, api, rule, opts[1..], a);
      }
    }
  }

  /** The client as shipped: an IPv6 source address without `--ether`
      is rejected at the end of the input. */
  lemma Ipv6WithoutEthertypeRejected(libc: Libc, api: Api, rule: MaskRule, text: string)
    requires libc.inetPton6(text).Some?
    ensures ParseAll(libc, api, rule, [Opt(SourceIp6, text)], DefaultArguments(api)) == Exit(Ipv6WithIpv4Ethertype)
  {
    var a := DefaultArguments(api);
    var b := Decode(libc, api, rule, SourceIp6, text, a).args;
    assert ParseAll(libc, api, rule, [Opt(SourceIp6, text)][1..], b) == Decode(libc, api, rule, KeyEnd, "", b);
  }
}
