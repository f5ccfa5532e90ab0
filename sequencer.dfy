/** The address sequencer of the batch add: `incrementMac` treats the six
    bytes of a MAC address as one big-endian counter and adds one, carrying
    from the last byte towards the first and wrapping silently past the
    first, so that the address behaves as a 48-bit modular counter. */
module AddressSequencer {

  import opened AclTypes

  /** The number of values an n-byte counter holds, 256^n. */
  function Pow256(n: nat): (r: nat)
    ensures r > 0
  {
    if n == 0 then 1 else 256 * Pow256(n - 1)
  }

  /** 2^48, the number of distinct MAC addresses. */
  const MacSpace: nat := 0x1_0000_0000_0000

  /** The value of a byte string read most significant byte first. */
  function ToNat(s: seq<Byte>): nat
  {
    if |s| == 0 then 0 else ToNat(s[..|s| - 1]) * 256 + s[|s| - 1]
  }

  lemma {:induction false} ToNatBound(s: seq<Byte>)
    ensures ToNat(s) < Pow256(|s|)
  {
    if |s| > 0 {
      var p := s[..|s| - 1];
      ToNatBound(p);
      assert ToNat(p) + 1 <= Pow256(|p|);
      assert (ToNat(p) + 1) * 256 <= Pow256(|p|) * 256;
    }
  }

  lemma MacSpaceIsPow256()
    ensures Pow256(6) == MacSpace
  {
    assert Pow256(2) == 0x1_0000;
    assert Pow256(4) == 0x1_0000_0000 by {
      assert Pow256(3) == 0x100_0000;
    }
  }

  /** The 48-bit value of a MAC address. */
  function MacToNat(m: Mac): (r: nat)
    ensures r < MacSpace
  {
    ToNatBound(m);
    MacSpaceIsPow256();
    ToNat(m)
  }

  /** One more than s as a counter of |s| bytes: the last byte that is not
      0xFF goes up by one and every 0xFF byte after it becomes zero. The
      counter value goes up by one, except that the largest value
      256^|s| - 1 wraps to zero. */
  function Increment(s: seq<Byte>): (r: seq<Byte>)
    ensures |r| == |s|
    ensures ToNat(r) == if ToNat(s) + 1 == Pow256(|s|) then 0 else ToNat(s) + 1
  {
    if |s| == 0 then []
    else
      var p := s[..|s| - 1];
      ToNatBound(p);
      if s[|s| - 1] == 255 then
        var r := Increment(p) + [0];
        assert r[..|r| - 1] == Increment(p);
        r
      else
        var r := p + [s[|s| - 1] + 1];
        assert r[..|r| - 1] == p;
        r
  }

  function Zeros(n: nat): (r: seq<Byte>)
    ensures |r| == n && forall j :: 0 <= j < n ==> r[j] == 0
  {
    seq(n, _ => 0)
  }

  /** Where the carry stops at byte k, the bytes before k are untouched,
      byte k goes up by one and the bytes after it (all 0xFF) become zero. */
  lemma {:induction false} IncrementCarry(s: seq<Byte>, k: nat)
    requires k < |s| && s[k] != 255
    requires forall j :: k < j < |s| ==> s[j] == 255
    ensures Increment(s) == s[..k] + [s[k] + 1] + Zeros(|s| - k - 1)
  {
    var p := s[..|s| - 1];
    if k < |s| - 1 {
      IncrementCarry(p, k);
      assert p[..k] == s[..k];
    }
  }

  /** An address of all 0xFF bytes wraps to all zeros. */
  lemma {:induction false} IncrementWrap(s: seq<Byte>)
    requires forall j :: 0 <= j < |s| ==> s[j] == 255
    ensures Increment(s) == Zeros(|s|)
  {
    if |s| > 0 {
      IncrementWrap(s[..|s| - 1]);
    }
  }

  /** The successor of a MAC address in the batch-add sequence. */
  function NextMac(m: Mac): (r: Mac)
    ensures MacToNat(r) == (MacToNat(m) + 1) % MacSpace
  {
    ToNatBound(m);
    MacSpaceIsPow256();
    Increment(m)
  }

  /** `incrementMac`: adds one to the address in place, carrying from the
      last byte towards the first and stopping at the first byte that does
      not wrap to zero. */
  method IncrementMac(addr: array<Byte>)
    requires addr.Length == 6
    modifies addr
    ensures addr[..] == Increment(old(addr[..]))
  {
    addr[5] := if addr[5] == 255 then 0 else addr[5] + 1;
    var i := 5;
    while i > 0
      invariant 0 <= i <= 5
      invariant forall j :: 0 <= j < i ==> addr[j] == old(addr[j])
      invariant addr[i] == (old(addr[i]) as int + 1) % 256
      invariant forall j :: i < j < 6 ==> old(addr[j]) == 255 && addr[j] == 0
    {
      if addr[i] == 0 {
        addr[i - 1] := if addr[i - 1] == 255 then 0 else addr[i - 1] + 1;
        i := i - 1;
      } else {
        break;
      }
    }
    ghost var s := old(addr[..]);
    if s[i] == 255 {
      assert forall j :: 0 <= j < 6 ==> s[j] == 255;
      IncrementWrap(s);
    } else {
      IncrementCarry(s, i);
      assert addr[..] == s[..i] + [s[i] + 1] + Zeros(5 - i);
    }
  }

  /** The two sequences the batch add relies on: 00:00:00:00:00:FF is followed
      by 00:00:00:00:01:00, and FF:FF:FF:FF:FF:FF wraps to 00:00:00:00:00:00. */
  lemma IncrementExamples()
    ensures NextMac([0, 0, 0, 0, 0, 255]) == [0, 0, 0, 0, 1, 0]
    ensures NextMac([255, 255, 255, 255, 255, 255]) == [0, 0, 0, 0, 0, 0]
  {
    IncrementCarry([0, 0, 0, 0, 0, 255], 4);
    IncrementWrap([255, 255, 255, 255, 255, 255]);
  }
}
