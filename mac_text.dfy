/** The MAC address text decoder of the option parser. An address is tried,
    in this order, as six colon-separated octets (`%2hhx:` six times), six
    dash-separated octets (`%2hhx-`) and three dot-separated 16-bit groups
    (`%4hx.` three times); the first layout whose six (or three) conversions
    all succeed gives the address. As with `sscanf`, white space is skipped
    before every conversion and text after the last field is ignored. A
    dotted group is stored high byte first (network order). */
module MacText {

  import opened Wrappers
  import opened AclTypes

  /** The characters `isspace` accepts in the C locale. */
  predicate IsSpace(c: char)
  {
    c == ' ' || c == '\t' || c == '\n' || c == '\r' || c == '\U{0B}' || c == '\U{0C}'
  }

  function SkipSpace(s: string): (r: string)
    ensures |r| <= |s|
    ensures |r| > 0 ==> !IsSpace(r[0])
  {
    if |s| > 0 && IsSpace(s[0]) then SkipSpace(s[1..]) else s
  }

  predicate IsHexDigit(c: char)
  {
    '0' <= c <= '9' || 'a' <= c <= 'f' || 'A' <= c <= 'F'
  }

  function HexDigitValue(c: char): (v: nat)
    requires IsHexDigit(c)
    ensures v < 16
  {
    if '0' <= c <= '9' then c as int - '0' as int
    else if 'a' <= c <= 'f' then c as int - 'a' as int + 10
    else c as int - 'A' as int + 10
  }

  /** 16^n. */
  function Pow16(n: nat): (r: nat)
    ensures r > 0
  {
    if n == 0 then 1 else 16 * Pow16(n - 1)
  }

  /** The number of hex digits at the front of s, counting at most `width`. */
  function HexRun(s: string, width: nat): (n: nat)
    ensures n <= width && n <= |s|
    ensures forall i :: 0 <= i < n ==> IsHexDigit(s[i])
    ensures n < width && n < |s| ==> !IsHexDigit(s[n])
  {
    if width == 0 || |s| == 0 || !IsHexDigit(s[0]) then 0
    else 1 + HexRun(s[1..], width - 1)
  }

  /** The value of a string of hex digits, most significant first. */
  function HexValue(ds: string): nat
    requires forall i :: 0 <= i < |ds| ==> IsHexDigit(ds[i])
  {
    if |ds| == 0 then 0
    else HexValue(ds[..|ds| - 1]) * 16 + HexDigitValue(ds[|ds| - 1])
  }

  lemma {:induction false} HexValueBound(ds: string)
    requires forall i :: 0 <= i < |ds| ==> IsHexDigit(ds[i])
    ensures HexValue(ds) < Pow16(|ds|)
  {
    if |ds| > 0 {
      HexValueBound(ds[..|ds| - 1]);
    }
  }

  lemma Pow16Monotonic(a: nat, b: nat)
    requires a <= b
    ensures Pow16(a) <= Pow16(b)
    decreases b
  {
    if a < b {
      Pow16Monotonic(a, b - 1);
    }
  }

  /** One `%<width>x` conversion: white space is skipped, then one to `width`
      hex digits are read. Gives the value and the text after the digits. */
  function ScanHex(s: string, width: nat): (r: Option<(nat, string)>)
    ensures r.Some? ==> r.value.0 < Pow16(width) && |r.value.1| < |s|
  {
    var t := SkipSpace(s);
    var n := HexRun(t, width);
    if n == 0 then None
    else
      HexValueBound(t[..n]);
      Pow16Monotonic(n, width);
      Some((HexValue(t[..n]), t[n..]))
  }

  /** `n` conversions of `width` hex digits, separated by the literal `sep`:
      the values of all of them, or None as soon as one conversion or one
      separator does not match. */
  function ScanFields(s: string, n: nat, width: nat, sep: char): (r: Option<seq<nat>>)
    requires n >= 1
    ensures r.Some? ==> |r.value| == n
    decreases n
  {
    var first := ScanHex(s, width);
    if first.None? then None
    else
      var v, rest := first.value.0, first.value.1;
      if n == 1 then Some([v])
      else if |rest| == 0 || rest[0] != sep then None
      else
        var others := ScanFields(rest[1..], n - 1, width, sep);
        if others.None? then None else Some([v] + others.value)
  }

  /** Every value a conversion of `width` digits gives is below 16^width. */
  lemma {:induction false} ScanFieldsBound(s: string, n: nat, width: nat, sep: char)
    requires n >= 1 && ScanFields(s, n, width, sep).Some?
    ensures forall i :: 0 <= i < n ==> ScanFields(s, n, width, sep).value[i] < Pow16(width)
    decreases n
  {
    var r := ScanFields(s, n, width, sep).value;
    var v, rest := ScanHex(s, width).value.0, ScanHex(s, width).value.1;
    if n == 1 {
      assert r == [v];
    } else {
      var others := ScanFields(rest[1..], n - 1, width, sep).value;
      ScanFieldsBound(rest[1..], n - 1, width, sep);
      assert r == [v] + others;
    }
  }

  function OctetsToMac(vs: seq<nat>): Mac
    requires |vs| == 6 && forall i :: 0 <= i < 6 ==> vs[i] < 256
  {
    [vs[0], vs[1], vs[2], vs[3], vs[4], vs[5]]
  }

  /** Three 16-bit groups as six bytes, each group high byte first. */
  function GroupsToMac(gs: seq<nat>): Mac
    requires |gs| == 3 && forall i :: 0 <= i < 3 ==> gs[i] < 65536
  {
    [gs[0] / 256, gs[0] % 256, gs[1] / 256, gs[1] % 256, gs[2] / 256, gs[2] % 256]
  }

  /** The six-octet layouts, `sep` being ':' or '-'. */
  function ScanOctets(s: string, sep: char): (r: Option<Mac>)
    ensures r.None? <==> ScanFields(s, 6, 2, sep).None?
    ensures r.Some? ==> forall i :: 0 <= i < 6 ==> r.value[i] as nat == ScanFields(s, 6, 2, sep).value[i]
  {
    match ScanFields(s, 6, 2, sep)
    case None => None
    case Some(vs) =>
      ScanFieldsBound(s, 6, 2, sep);
      assert Pow16(2) == 256;
      Some(OctetsToMac(vs))
  }

  /** The dotted layout: three 16-bit groups, each stored high byte first. */
  function ScanGroups(s: string): (r: Option<Mac>)
    ensures r.None? <==> ScanFields(s, 3, 4, '.').None?
    ensures r.Some? ==> forall i :: 0 <= i < 3 ==>
      r.value[2 * i] as nat * 256 + r.value[2 * i + 1] as nat == ScanFields(s, 3, 4, '.').value[i]
  {
    match ScanFields(s, 3, 4, '.')
    case None => None
    case Some(gs) =>
      ScanFieldsBound(s, 3, 4, '.');
      assert Pow16(4) == 65536;
      Some(GroupsToMac(gs))
  }

  /** The MAC text decoder: colon layout, then dash layout, then dotted layout. */
  function ParseMac(s: string): (r: Option<Mac>)
    ensures r.None? <==> ScanOctets(s, ':').None? && ScanOctets(s, '-').None? && ScanGroups(s).None?
    ensures ScanOctets(s, ':').Some? ==> r == ScanOctets(s, ':')
    ensures ScanOctets(s, ':').None? && ScanOctets(s, '-').Some? ==> r == ScanOctets(s, '-')
    ensures ScanOctets(s, ':').None? && ScanOctets(s, '-').None? ==> r == ScanGroups(s)
  {
    match ScanOctets(s, ':')
    case Some(m) => Some(m)
    case None =>
      match ScanOctets(s, '-')
      case Some(m) => Some(m)
      case None => ScanGroups(s)
  }

  // ---------------------------------------------------------------------
  // Text in each layout, and what the decoder makes of it.

  function HexChar(d: nat): (c: char)
    requires d < 16
    ensures IsHexDigit(c) && HexDigitValue(c) == d
  {
    if d < 10 then ('0' as int + d) as char else ('a' as int + d - 10) as char
  }

  /** v written with exactly `width` hex digits (leading zeros kept). */
  function HexDigits(v: nat, width: nat): (ds: string)
    ensures |ds| == width && forall i :: 0 <= i < width ==> IsHexDigit(ds[i])
  {
    if width == 0 then [] else HexDigits(v / 16, width - 1) + [HexChar(v % 16)]
  }

  lemma {:induction false} HexDigitsValue(v: nat, width: nat)
    requires v < Pow16(width)
    ensures HexValue(HexDigits(v, width)) == v
  {
    if width > 0 {
      var ds := HexDigits(v, width);
      assert ds[..width - 1] == HexDigits(v / 16, width - 1);
      HexDigitsValue(v / 16, width - 1);
    }
  }

  /** A conversion of `width` digits reads exactly the `width` digits that
      open the text, whatever follows them. */
  lemma ScanHexDigits(v: nat, width: nat, rest: string)
    requires 0 < width && v < Pow16(width)
    ensures ScanHex(HexDigits(v, width) + rest, width) == Some((v, rest))
  {
    var t := HexDigits(v, width) + rest;
    assert SkipSpace(t) == t by {
      assert IsHexDigit(t[0]);
    }
    HexRunFull(t, width);
    assert t[..width] == HexDigits(v, width);
    HexDigitsValue(v, width);
  }

  lemma {:induction false} HexRunFull(t: string, width: nat)
    requires width <= |t| && forall i :: 0 <= i < width ==> IsHexDigit(t[i])
    ensures HexRun(t, width) == width
  {
    if width > 0 {
      HexRunFull(t[1..], width - 1);
    }
  }

  /** The values vs written as fields of `width` digits joined by `sep`. */
  function Fields(vs: seq<nat>, width: nat, sep: char): string
    requires |vs| >= 1
  {
    if |vs| == 1 then HexDigits(vs[0], width)
    else HexDigits(vs[0], width) + [sep] + Fields(vs[1..], width, sep)
  }

  /** One step of ScanFields: a first field followed by the separator. */
  lemma ScanFieldsStep(s: string, width: nat, sep: char, vs: seq<nat>, tail: string)
    requires |vs| >= 2 && ScanHex(s, width) == Some((vs[0], tail))
    requires |tail| > 0 && tail[0] == sep
    requires ScanFields(tail[1..], |vs| - 1, width, sep) == Some(vs[1..])
    ensures ScanFields(s, |vs|, width, sep) == Some(vs)
  {
    assert [vs[0]] + vs[1..] == vs;
  }

  lemma {:induction false} ScanFieldsRoundTrip(vs: seq<nat>, width: nat, sep: char, rest: string)
    requires |vs| >= 1 && width > 0
    requires forall i :: 0 <= i < |vs| ==> vs[i] < Pow16(width)
    ensures ScanFields(Fields(vs, width, sep) + rest, |vs|, width, sep) == Some(vs)
  {
    var s := Fields(vs, width, sep) + rest;
    if |vs| == 1 {
      assert s == HexDigits(vs[0], width) + rest;
      ScanHexDigits(vs[0], width, rest);
      assert [vs[0]] == vs;
    } else {
      var others := vs[1..];
      var more := Fields(others, width, sep) + rest;
      var tail := [sep] + more;
      assert s == HexDigits(vs[0], width) + tail;
      ScanHexDigits(vs[0], width, tail);
      assert tail[1..] == more;
      ScanFieldsRoundTrip(others, width, sep, rest);
      ScanFieldsStep(s, width, sep, vs, tail);
    }
  }

  /** A MAC address written in the colon (sep = ':') or dash (sep = '-') layout. */
  function OctetText(m: Mac, sep: char): string
  {
    Fields(m, 2, sep)
  }

  /** A MAC address written in the dotted layout. */
  function DottedText(m: Mac): string
  {
    Fields(Groups(m), 4, '.')
  }

  /** When a first field is read, a separator other than `sep` ends the scan. */
  lemma ScanFieldsWrongSeparator(v: nat, width: nat, c: char, after: string, n: nat, sep: char)
    requires 0 < width && v < Pow16(width) && n >= 2 && c != sep
    ensures ScanFields(HexDigits(v, width) + ([c] + after), n, width, sep) == None
  {
    ScanHexDigits(v, width, [c] + after);
  }

  /** Text in an octet layout reads back as its address in that layout. */
  lemma OctetsDecode(m: Mac, sep: char, rest: string)
    ensures ScanOctets(OctetText(m, sep) + rest, sep) == Some(m)
  {
    var vs: seq<nat> := m;
    assert Pow16(2) == 256;
    ScanFieldsRoundTrip(vs, 2, sep, rest);
    ScanOctetsOf(OctetText(m, sep) + rest, sep, m);
  }

  /** Six octets read by the field scanner are the address the layout gives. */
  lemma ScanOctetsOf(s: string, sep: char, m: Mac)
    requires ScanFields(s, 6, 2, sep) == Some(m)
    ensures ScanOctets(s, sep) == Some(m)
  {
    assert OctetsToMac(m) == m;
  }

  /** Colon-layout text decodes to its address, with anything after it. */
  lemma ColonLayoutDecodes(m: Mac, rest: string)
    ensures ParseMac(OctetText(m, ':') + rest) == Some(m)
  {
    OctetsDecode(m, ':', rest);
  }

  /** Dash-layout text decodes to its address, with anything after it: the
      colon layout stops at the first dash. */
  lemma DashLayoutDecodes(m: Mac, rest: string)
    ensures ParseMac(OctetText(m, '-') + rest) == Some(m)
  {
    var s := OctetText(m, '-') + rest;
    assert s == HexDigits(m[0], 2) + (['-'] + (Fields(m[1..], 2, '-') + rest));
    ScanFieldsWrongSeparator(m[0], 2, '-', Fields(m[1..], 2, '-') + rest, 6, ':');
    OctetsDecode(m, '-', rest);
  }

  /** The three groups of an address, each high byte first. */
  function Groups(m: Mac): (gs: seq<nat>)
    ensures |gs| == 3 && forall i :: 0 <= i < 3 ==> gs[i] < 65536
  {
    [m[0] as nat * 256 + m[1], m[2] as nat * 256 + m[3], m[4] as nat * 256 + m[5]]
  }

  /** Dotted text reads back as its address in the dotted layout. */
  lemma GroupsDecode(m: Mac, rest: string)
    ensures ScanGroups(DottedText(m) + rest) == Some(m)
  {
    var gs := Groups(m);
    assert Pow16(4) == 65536;
    ScanFieldsRoundTrip(gs, 4, '.', rest);
    GroupsToMacInverse(m);
  }

  /** Splitting the groups of an address into bytes gives the address back. */
  lemma GroupsToMacInverse(m: Mac)
    ensures GroupsToMac(Groups(m)) == m
  {
    GroupBytes(m[0], m[1]);
    GroupBytes(m[2], m[3]);
    GroupBytes(m[4], m[5]);
  }

  lemma GroupBytes(hi: Byte, lo: Byte)
    ensures (hi as nat * 256 + lo) / 256 == hi && (hi as nat * 256 + lo) % 256 == lo
  {
  }

  /** Neither octet layout reads dotted text: both read the first two digits
      of the first group and then meet a third hex digit where they expect
      their separator. */
  lemma OctetsRejectDotted(m: Mac, rest: string, sep: char)
    requires sep == ':' || sep == '-'
    ensures ScanOctets(DottedText(m) + rest, sep) == None
  {
    var g := Groups(m)[0];
    var s := DottedText(m) + rest;
    assert s[..4] == HexDigits(g, 4);
    HexDigitsSplit(g);
    var after := s[3..];
    assert s == HexDigits(g / 256, 2) + ([s[2]] + after);
    assert IsHexDigit(s[2]);
    assert g / 256 < Pow16(2);
    ScanFieldsWrongSeparator(g / 256, 2, s[2], after, 6, sep);
  }

  /** Dotted-layout text decodes to its address, with anything after it: each
      group gives its high byte first. */
  lemma DottedLayoutDecodes(m: Mac, rest: string)
    ensures ParseMac(DottedText(m) + rest) == Some(m)
  {
    OctetsRejectDotted(m, rest, ':');
    OctetsRejectDotted(m, rest, '-');
    GroupsDecode(m, rest);
  }

  /** Four digits are the two-digit forms of the high and the low byte. */
  lemma HexDigitsSplit(g: nat)
    requires g < 65536
    ensures HexDigits(g, 4) == HexDigits(g / 256, 2) + HexDigits(g % 256, 2)
  {
    assert g / 16 / 16 == g / 256;
    assert (g / 16) % 16 == (g % 256) / 16;
    assert g % 16 == (g % 256) % 16;
  }

  /** The three layouts of one address decode to the same six bytes, e.g.
      `01:02:03:04:05:06`, `01-02-03-04-05-06` and `0102.0304.0506`. */
  lemma LayoutsAgree(m: Mac)
    ensures ParseMac(OctetText(m, ':')) == ParseMac(OctetText(m, '-')) == ParseMac(DottedText(m)) == Some(m)
  {
    ColonLayoutDecodes(m, []);
    assert OctetText(m, ':') + [] == OctetText(m, ':');
    DashLayoutDecodes(m, []);
    assert OctetText(m, '-') + [] == OctetText(m, '-');
    DottedLayoutDecodes(m, []);
    assert DottedText(m) + [] == DottedText(m);
  }

  /** Text whose first non-blank character is not a hex digit matches none
      of the layouts and is rejected. */
  lemma NoLeadingDigitRejected(s: string)
    requires |SkipSpace(s)| == 0 || !IsHexDigit(SkipSpace(s)[0])
    ensures ParseMac(s) == None
  {
  }
}
