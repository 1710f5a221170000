/** Bytes and the big-endian integers of the wire formats. */
module BigEndian {
  type byte = x: int | 0 <= x < 0x100
  type u16 = x: int | 0 <= x < 0x1_0000
  type u32 = x: int | 0 <= x < 0x1_0000_0000
  type u64 = x: int | 0 <= x < 0x1_0000_0000_0000_0000

  const MAX_U64: u64 := 0xFFFF_FFFF_FFFF_FFFF

  function Be16(s: seq<byte>, at: nat): u16
    requires at + 2 <= |s|
  {
    s[at] as int * 0x100 + s[at + 1]
  }

  function Be32(s: seq<byte>, at: nat): u32
    requires at + 4 <= |s|
  {
    Be16(s, at) as int * 0x1_0000 + Be16(s, at + 2)
  }

  function Be64(s: seq<byte>, at: nat): u64
    requires at + 8 <= |s|
  {
    Be32(s, at) as int * 0x1_0000_0000 + Be32(s, at + 4)
  }

  function Put16(v: u16): (s: seq<byte>)
    ensures |s| == 2 && Be16(s, 0) == v
  {
    [v / 0x100, v % 0x100]
  }

  function Put32(v: u32): (s: seq<byte>)
    ensures |s| == 4 && Be32(s, 0) == v
  {
    Put16(v / 0x1_0000) + Put16(v % 0x1_0000)
  }

  function Put64(v: u64): (s: seq<byte>)
    ensures |s| == 8 && Be64(s, 0) == v
  {
    Put32(v / 0x1_0000_0000) + Put32(v % 0x1_0000_0000)
  }

  /** Reading is injective: two bytes are the only two bytes of their value. */
  lemma Put16Be16(s: seq<byte>, at: nat)
    requires at + 2 <= |s|
    ensures Put16(Be16(s, at)) == s[at..at + 2]
  {
    assert s[at..at + 2] == [s[at], s[at + 1]];
  }

  lemma Put32Be32(s: seq<byte>, at: nat)
    requires at + 4 <= |s|
    ensures Put32(Be32(s, at)) == s[at..at + 4]
  {
    hide Be16, Put16;
    var hi, lo := Be16(s, at), Be16(s, at + 2);
    assert Be32(s, at) / 0x1_0000 == hi && Be32(s, at) % 0x1_0000 == lo;
    Put16Be16(s, at);
    Put16Be16(s, at + 2);
    assert s[at..at + 4] == s[at..at + 2] + s[at + 2..at + 4];
  }

  lemma Put64Be64(s: seq<byte>, at: nat)
    requires at + 8 <= |s|
    ensures Put64(Be64(s, at)) == s[at..at + 8]
  {
    hide Be32, Put32;
    var hi, lo := Be32(s, at), Be32(s, at + 4);
    assert Be64(s, at) / 0x1_0000_0000 == hi && Be64(s, at) % 0x1_0000_0000 == lo;
    Put32Be32(s, at);
    Put32Be32(s, at + 4);
    assert s[at..at + 8] == s[at..at + 4] + s[at + 4..at + 8];
  }

  /** A length prefix, what it frames and what follows, put together again. */
  lemma Regroup(b: seq<byte>, len: nat, blocks: seq<byte>, rest: seq<byte>)
    requires 2 + len <= |b| && b[2 + len..] == blocks + rest
    ensures b[0..2] + b[2..2 + len] + blocks + rest == b
  {
    assert b == b[0..2] + b[2..2 + len] + b[2 + len..];
  }

  // ---- The order of values is the lexicographic order of bytes ----

  /** At the first byte where they differ, `a` has the smaller one. */
  predicate Smaller(a: seq<byte>, b: seq<byte>) {
    |a| == |b| && exists k | 0 <= k < |a| :: a[..k] == b[..k] && a[k] < b[k]
  }

  lemma SmallerInParts(a: seq<byte>, b: seq<byte>, m: nat)
    requires |a| == |b| && m <= |a|
    ensures Smaller(a, b) <==> Smaller(a[..m], b[..m]) || (a[..m] == b[..m] && Smaller(a[m..], b[m..]))
  {
    if k :| 0 <= k < |a| && a[..k] == b[..k] && a[k] < b[k] {
      if k < m {
        assert a[..m][..k] == a[..k] && b[..m][..k] == b[..k];
      } else {
        assert a[..m] == a[..k][..m] && b[..m] == b[..k][..m];
        assert a[m..][..k - m] == a[..k][m..] && b[m..][..k - m] == b[..k][m..];
        assert a[m..][k - m] < b[m..][k - m];
      }
    }
    if k :| 0 <= k < m && a[..m][..k] == b[..m][..k] && a[..m][k] < b[..m][k] {
      assert a[..k] == a[..m][..k] && b[..k] == b[..m][..k];
    }
    if a[..m] == b[..m] {
      if k :| 0 <= k < |a| - m && a[m..][..k] == b[m..][..k] && a[m..][k] < b[m..][k] {
        assert a[..m + k] == a[..m] + a[m..][..k] && b[..m + k] == b[..m] + b[m..][..k];
      }
    }
  }

  lemma Order16(a: seq<byte>, b: seq<byte>)
    requires |a| == |b| == 2
    ensures Be16(a, 0) < Be16(b, 0) <==> Smaller(a, b)
    ensures Be16(a, 0) == Be16(b, 0) ==> a == b
  {
    assert a[..0] == b[..0];
    assert a[0] == b[0] ==> a[..1] == b[..1];
    Put16Be16(a, 0);
    Put16Be16(b, 0);
    assert a[0..2] == a && b[0..2] == b;
  }

  lemma Order32(a: seq<byte>, b: seq<byte>)
    requires |a| == |b| == 4
    ensures Be32(a, 0) < Be32(b, 0) <==> Smaller(a, b)
    ensures Be32(a, 0) == Be32(b, 0) ==> a == b
  {
    hide Smaller, Put16;
    Halves(a, 2);
    Halves(b, 2);
    assert Be16(a, 2) == Be16(a[2..], 0) && Be16(b, 2) == Be16(b[2..], 0);
    Order16(a[..2], b[..2]);
    Order16(a[2..], b[2..]);
    SmallerInParts(a, b, 2);
    NotSmaller(a[..2]);
  }

  /** Eight bytes on the wire are in the order of the numbers that they are. */
  lemma Order64(a: seq<byte>, b: seq<byte>)
    requires |a| == |b| == 8
    ensures Be64(a, 0) < Be64(b, 0) <==> Smaller(a, b)
    ensures Be64(a, 0) == Be64(b, 0) ==> a == b
  {
    hide Smaller, Be16;
    Halves(a, 4);
    Halves(b, 4);
    Slice32(a);
    Slice32(b);
    Order32(a[..4], b[..4]);
    Order32(a[4..], b[4..]);
    SmallerInParts(a, b, 4);
    NotSmaller(a[..4]);
  }

  lemma Halves(s: seq<byte>, m: nat)
    requires m <= |s|
    ensures s == s[..m] + s[m..]
  {
  }

  lemma Slice32(s: seq<byte>)
    requires |s| == 8
    ensures Be32(s, 0) == Be32(s[..4], 0) && Be32(s, 4) == Be32(s[4..], 0)
  {
  }

  lemma NotSmaller(s: seq<byte>)
    ensures !Smaller(s, s)
  {
  }

  /** `b` with `bytes` written over it from `at` on. */
  function Patched(b: seq<byte>, at: nat, bytes: seq<byte>): (r: seq<byte>)
    requires at + |bytes| <= |b|
    ensures |r| == |b|
  {
    b[..at] + bytes + b[at + |bytes|..]
  }

  lemma PatchAfterPatch(b: seq<byte>, at: nat, x: seq<byte>, y: seq<byte>)
    requires at + |x| + |y| <= |b|
    ensures Patched(Patched(b, at, x), at + |x|, y) == Patched(b, at, x + y)
  {
    var p := Patched(b, at, x);
    assert p[..at + |x|] == b[..at] + x;
    assert p[at + |x| + |y|..] == b[at + |x| + |y|..];
  }

  /** memcpy into a buffer. */
  method PutBytes(a: array<byte>, at: nat, bytes: seq<byte>)
    requires at + |bytes| <= a.Length
    modifies a
    ensures a[..] == Patched(old(a[..]), at, bytes)
  {
    forall i | 0 <= i < |bytes| {
      a[at + i] := bytes[i];
    }
  }

  method PutBe16(a: array<byte>, at: nat, v: u16)
    requires at + 2 <= a.Length
    modifies a
    ensures a[..] == Patched(old(a[..]), at, Put16(v))
  {
    a[at], a[at + 1] := v / 0x100, v % 0x100;
  }

  method PutBe32(a: array<byte>, at: nat, v: u32)
    requires at + 4 <= a.Length
    modifies a
    ensures a[..] == Patched(old(a[..]), at, Put32(v))
  {
    PatchAfterPatch(a[..], at, Put16(v / 0x1_0000), Put16(v % 0x1_0000));
    PutBe16(a, at, v / 0x1_0000);
    PutBe16(a, at + 2, v % 0x1_0000);
  }

  method PutBe64(a: array<byte>, at: nat, v: u64)
    requires at + 8 <= a.Length
    modifies a
    ensures a[..] == Patched(old(a[..]), at, Put64(v))
  {
    PatchAfterPatch(a[..], at, Put32(v / 0x1_0000_0000), Put32(v % 0x1_0000_0000));
    PutBe32(a, at, v / 0x1_0000_0000);
    PutBe32(a, at + 4, v % 0x1_0000_0000);
  }
}
