/**
 Big-endian numbers and the part of RLP (Appendix B of the Ethereum Yellow Paper) that the batch codec
 uses: a flat list of byte strings. The decoder is the strict one of go-ethereum: it refuses sizes that
 are not minimal, single bytes with a header, nested lists and trailing bytes.
 */
module Rlp {
  import opened Wrappers

  type Byte = x: int | 0 <= x < 256

  type Bytes = seq<Byte>

  // ----- numbers -----

  function NatOf(bs: Bytes): nat {
    if bs == [] then 0 else NatOf(bs[..|bs| - 1]) * 256 + bs[|bs| - 1]
  }

  /** Minimal big-endian bytes; none for zero. */
  function BytesOf(n: nat): Bytes {
    if n == 0 then [] else BytesOf(n / 256) + [n % 256]
  }

  /** Big-endian bytes on a fixed width; what does not fit is cut. */
  function Fixed(n: nat, width: nat): (bs: Bytes)
    ensures |bs| == width
  {
    if width == 0 then [] else Fixed(n / 256, width - 1) + [n % 256]
  }

  function Pow256(n: nat): (r: nat)
    ensures r >= 1
  {
    if n == 0 then 1 else 256 * Pow256(n - 1)
  }

  lemma {:induction false} BytesOfRoundTrip(n: nat)
    ensures NatOf(BytesOf(n)) == n
  {
    if n > 0 {
      BytesOfRoundTrip(n / 256);
      assert BytesOf(n)[..|BytesOf(n)| - 1] == BytesOf(n / 256);
    }
  }

  lemma {:induction false} FixedRoundTrip(n: nat, width: nat)
    requires n < Pow256(width)
    ensures NatOf(Fixed(n, width)) == n
    decreases width
  {
    if width > 0 {
      FixedRoundTrip(n / 256, width - 1);
      assert Fixed(n, width)[..width - 1] == Fixed(n / 256, width - 1);
    }
  }

  lemma {:induction false} BytesOfSize(n: nat, width: nat)
    requires n < Pow256(width)
    ensures |BytesOf(n)| <= width
    decreases width
  {
    if n > 0 {
      BytesOfSize(n / 256, width - 1);
    }
  }

  lemma {:induction false} NatOfBound(bs: Bytes)
    ensures NatOf(bs) < Pow256(|bs|)
    decreases |bs|
  {
    if bs != [] {
      NatOfBound(bs[..|bs| - 1]);
    }
  }

  lemma {:induction false} BytesOfLeading(n: nat)
    requires n > 0
    ensures BytesOf(n) != [] && BytesOf(n)[0] != 0
  {
    if n >= 256 {
      BytesOfLeading(n / 256);
    }
  }

  lemma Widths()
    ensures Pow256(1) == 256 && Pow256(4) == 0x1_0000_0000 && Pow256(8) == 0x1_0000_0000_0000_0000
  {
    assert Pow256(2) == 0x1_0000 && Pow256(3) == 0x100_0000;
    assert Pow256(5) == 0x100_0000_0000 && Pow256(6) == 0x1_0000_0000_0000 && Pow256(7) == 0x100_0000_0000_0000;
  }

  // ----- encoding -----

  const UINT64 := 0x1_0000_0000_0000_0000

  /** Size header of a string (base 0x80) or a list (base 0xC0). */
  function Head(base: Byte, size: nat): (bs: Bytes)
    requires base == 0x80 || base == 0xC0
    requires size < 0x1_0000_0000_0000_0000
    ensures 1 <= |bs| <= 9 && base <= bs[0]
  {
    if size < 56 then [base + size]
    else
      Widths();
      BytesOfSize(size, 8);
      BytesOfLeading(size);
      [base + 55 + |BytesOf(size)|] + BytesOf(size)
  }

  function EncodeString(s: Bytes): Bytes
    requires |s| < UINT64
  {
    if |s| == 1 && s[0] < 0x80 then s else Head(0x80, |s|) + s
  }

  ghost predicate Sized(items: seq<Bytes>) {
    forall i: nat {:trigger items[i]} :: i < |items| ==> |items[i]| < UINT64
  }

  function EncodeItems(items: seq<Bytes>): Bytes
    requires Sized(items)
  {
    if items == [] then []
    else
      assert forall i: nat {:trigger items[1..][i]} :: i < |items| - 1 ==> items[1..][i] == items[i + 1];
      EncodeString(items[0]) + EncodeItems(items[1..])
  }

  function EncodeList(items: seq<Bytes>): Bytes
    requires Sized(items) && |EncodeItems(items)| < UINT64
  {
    Head(0xC0, |EncodeItems(items)|) + EncodeItems(items)
  }

  // ----- decoding -----

  datatype Kind = Single | Str | List

  /** Kind of a value, length of its header and of its payload. */
  datatype Value = Value(kind: Kind, header: nat, size: nat)

  /** Size of a long header: n bytes after the first, without leading zero and not below 56. */
  function LongSize(bs: Bytes, n: nat): Option<nat>
    requires 1 <= n
  {
    if |bs| < 1 + n || bs[1] == 0 || NatOf(bs[1..1 + n]) < 56 then None else Some(NatOf(bs[1..1 + n]))
  }

  function ReadValue(bs: Bytes): (r: Option<Value>)
    ensures r.Some? ==> 0 < r.value.header + r.value.size <= |bs|
  {
    if bs == [] then None
    else
      var b := bs[0];
      var v :=
        if b < 0x80 then Some(Value(Single, 0, 1))
        else if b < 0xB8 then Some(Value(Str, 1, b - 0x80))
        else if b < 0xC0 then
          var n := b - 0xB7;
          var size := LongSize(bs, n);
          if size.None? then None else Some(Value(Str, 1 + n, size.value))
        else if b < 0xF8 then Some(Value(List, 1, b - 0xC0))
        else
          var n := b - 0xF7;
          var size := LongSize(bs, n);
          if size.None? then None else Some(Value(List, 1 + n, size.value));
      if v.None? || |bs| < v.value.header + v.value.size then None else v
  }

  /** One byte string and what follows it. */
  function DecodeString(bs: Bytes): (r: Option<(Bytes, Bytes)>)
    ensures r.Some? ==> |r.value.1| < |bs|
  {
    var v := ReadValue(bs);
    if v.None? || v.value.kind.List? then None
    else
      var end := v.value.header + v.value.size;
      var s := bs[v.value.header..end];
      if v.value.kind.Str? && |s| == 1 && s[0] < 0x80 then None else Some((s, bs[end..]))
  }

  function DecodeItems(bs: Bytes): Option<seq<Bytes>>
    decreases |bs|
  {
    if bs == [] then Some([])
    else
      var first := DecodeString(bs);
      if first.None? then None
      else
        var rest := DecodeItems(first.value.1);
        if rest.None? then None else Some([first.value.0] + rest.value)
  }

  /** rlp.DecodeBytes into a list of byte strings. */
  function DecodeList(bs: Bytes): Option<seq<Bytes>> {
    var v := ReadValue(bs);
    if v.None? || !v.value.kind.List? || v.value.header + v.value.size != |bs| then None
    else DecodeItems(bs[v.value.header..])
  }

  // ----- round trips -----

  lemma ReadHead(base: Byte, size: nat, tail: Bytes)
    requires base == 0x80 || base == 0xC0
    requires size < 0x1_0000_0000_0000_0000 && size <= |tail|
    ensures ReadValue(Head(base, size) + tail)
            == Some(Value(if base == 0x80 then Str else List, |Head(base, size)|, size))
  {
    var head := Head(base, size);
    var bs := head + tail;
    if size >= 56 {
      var n := |BytesOf(size)|;
      Widths();
      BytesOfSize(size, 8);
      BytesOfLeading(size);
      BytesOfRoundTrip(size);
      assert bs[1..1 + n] == BytesOf(size);
      assert bs[1] == BytesOf(size)[0];
      assert LongSize(bs, n) == Some(size);
    }
  }

  lemma StringRoundTrip(s: Bytes, rest: Bytes)
    requires |s| < UINT64
    ensures DecodeString(EncodeString(s) + rest) == Some((s, rest))
  {
    var bs := EncodeString(s) + rest;
    if |s| == 1 && s[0] < 0x80 {
      assert bs[0..1] == s && bs[1..] == rest;
    } else {
      var head := Head(0x80, |s|);
      assert bs == head + (s + rest);
      ReadHead(0x80, |s|, s + rest);
      assert bs[|head|..|head| + |s|] == s && bs[|head| + |s|..] == rest;
    }
  }

  lemma {:induction false} ItemsRoundTrip(items: seq<Bytes>)
    requires Sized(items)
    ensures DecodeItems(EncodeItems(items)) == Some(items)
    decreases |items|
  {
    if items != [] {
      StringRoundTrip(items[0], EncodeItems(items[1..]));
      ItemsRoundTrip(items[1..]);
      assert [items[0]] + items[1..] == items;
    }
  }

  /** A list of byte strings comes back from its encoding. */
  lemma ListRoundTrip(items: seq<Bytes>)
    requires Sized(items) && |EncodeItems(items)| < UINT64
    ensures DecodeList(EncodeList(items)) == Some(items)
  {
    var payload := EncodeItems(items);
    var head := Head(0xC0, |payload|);
    ReadHead(0xC0, |payload|, payload);
    assert (head + payload)[|head|..] == payload;
    ItemsRoundTrip(items);
  }

  // ----- the decoder accepts nothing else -----

  lemma {:induction false} BytesOfNatOf(bs: Bytes)
    requires bs != [] && bs[0] != 0
    ensures NatOf(bs) > 0 && BytesOf(NatOf(bs)) == bs
    decreases |bs|
  {
    var front, last := bs[..|bs| - 1], bs[|bs| - 1];
    if |bs| > 1 {
      BytesOfNatOf(front);
    } else {
      assert front == [];
    }
    var n := NatOf(bs);
    assert n / 256 == NatOf(front) && n % 256 == last;
    assert bs == front + [last];
  }

  lemma ReadLong(base: Byte, bs: Bytes, n: nat)
    requires base == 0x80 || base == 0xC0
    requires bs != [] && 1 <= n <= 8 && bs[0] == base + 55 + n && LongSize(bs, n).Some?
    ensures LongSize(bs, n).value < UINT64 && bs[..1 + n] == Head(base, LongSize(bs, n).value)
  {
    Widths();
    NatOfBound(bs[1..1 + n]);
    PowMonotone(n, 8);
    BytesOfNatOf(bs[1..1 + n]);
    assert bs[..1 + n] == [bs[0]] + bs[1..1 + n];
  }

  lemma {:induction false} PowMonotone(a: nat, b: nat)
    requires a <= b
    ensures Pow256(a) <= Pow256(b)
    decreases b
  {
    if a < b {
      PowMonotone(a, b - 1);
    }
  }

  lemma ReadIsHead(bs: Bytes)
    requires ReadValue(bs).Some? && !ReadValue(bs).value.kind.Single?
    ensures var v := ReadValue(bs).value;
            v.size < UINT64 && bs[..v.header] == Head(if v.kind.Str? then 0x80 else 0xC0, v.size)
  {
    var b := bs[0];
    if 0xB8 <= b < 0xC0 {
      ReadLong(0x80, bs, b - 0xB7);
    } else if 0xF8 <= b {
      ReadLong(0xC0, bs, b - 0xF7);
    }
  }

  lemma StringCanonical(bs: Bytes)
    requires DecodeString(bs).Some?
    ensures var (s, rest) := DecodeString(bs).value; |s| < UINT64 && bs == EncodeString(s) + rest
  {
    var v := ReadValue(bs).value;
    var (s, rest) := DecodeString(bs).value;
    if v.kind.Str? {
      ReadIsHead(bs);
      assert bs == bs[..v.header] + s + rest;
    } else {
      assert bs == s + rest;
    }
  }

  lemma {:induction false} ItemsCanonical(bs: Bytes)
    requires DecodeItems(bs).Some?
    ensures var items := DecodeItems(bs).value; Sized(items) && EncodeItems(items) == bs
    decreases |bs|
  {
    if bs != [] {
      StringCanonical(bs);
      var (s, rest) := DecodeString(bs).value;
      ItemsCanonical(rest);
      var items := DecodeItems(bs).value;
      assert items[1..] == DecodeItems(rest).value;
      forall i: nat {:trigger items[i]} | i < |items|
        ensures |items[i]| < UINT64
      {
        if i > 0 {
          assert items[i] == items[1..][i - 1];
        }
      }
    }
  }

  /** Two byte strings never decode to the same list: what decodes is the encoding of what it decodes to. */
  lemma ListCanonical(bs: Bytes)
    requires DecodeList(bs).Some?
    ensures var items := DecodeList(bs).value;
            Sized(items) && |EncodeItems(items)| < UINT64 && EncodeList(items) == bs
  {
    hide ReadValue, DecodeItems, EncodeItems, Head, Sized;
    var v := ReadValue(bs).value;
    ReadIsHead(bs);
    ItemsCanonical(bs[v.header..]);
    assert bs == bs[..v.header] + bs[v.header..];
  }
}
