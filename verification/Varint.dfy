/** Base-128 varints, as read and written by the ONNX rewriter (Protocol Buffers Encoding,
    section "Base 128 Varints"). Machine integers are written out: a `u64` shift wraps at 2^64. */
module Varint {
  import opened Wrappers

  type byte = b: int | 0 <= b < 0x100
  type u64 = v: int | 0 <= v < 0x1_0000_0000_0000_0000

  const TWO56: nat := 0x100_0000_0000_0000
  const TWO63: nat := 0x8000_0000_0000_0000
  const TWO64: nat := 0x1_0000_0000_0000_0000
  const TWO70: nat := 0x40_0000_0000_0000_0000

  datatype WireError =
    | VarintOverrun
    | VarintTooLong
    | FixedOverrun(field: u64)
    | LengthOverrun(field: u64)
    | UnsupportedWire(wire: u64, field: u64)

  /** `x` doubled `n` times, without bound. */
  function Doubled(x: nat, n: nat): nat {
    if n == 0 then x else 2 * Doubled(x, n - 1)
  }

  /** `x << shift` on a `u64`: bits pushed past bit 63 are lost. */
  function ShiftLeft(x: u64, shift: nat): u64 {
    Doubled(x, shift) % TWO64
  }

  // ---------------------------------------------------------------------------------------------
  // What a varint is

  /** A complete varint: at most ten bytes, the continuation bit set on all but the last. */
  predicate IsVarint(s: seq<byte>) {
    && 0 < |s| <= 10
    && s[|s| - 1] < 0x80
    && forall i :: 0 <= i < |s| - 1 ==> s[i] >= 0x80
  }

  /** The little-endian base-128 number spelled by the low seven bits of each byte. */
  function Groups(s: seq<byte>): nat {
    if s == [] then 0 else s[0] % 0x80 + 0x80 * Groups(s[1..])
  }

  /** Length of the varint that starts at `buf[n]`, counted from the start of `buf`. */
  function ScanFrom(buf: seq<byte>, n: nat): (r: Result<nat, WireError>)
    requires n <= |buf|
    ensures r.Ok? ==> n < r.value <= |buf| && r.value <= 10
    decreases |buf| - n
  {
    if n == |buf| then Err(VarintOverrun)
    else if n >= 10 then Err(VarintTooLong)
    else if buf[n] < 0x80 then Ok(n + 1)
    else ScanFrom(buf, n + 1)
  }

  /** The value and length of the varint at the start of `buf`. */
  function Decode(buf: seq<byte>): (r: Result<(u64, nat), WireError>)
    ensures r.Ok? ==> 0 < r.value.1 <= |buf| && r.value.1 <= 10
  {
    var n :- ScanFrom(buf, 0);
    Ok((Groups(buf[..n]) % TWO64, n))
  }

  /** Minimal encoding of `v`. */
  function Encode(v: nat): (s: seq<byte>)
    ensures |s| > 0
  {
    if v < 0x80 then [v] else [v % 0x80 + 0x80] + Encode(v / 0x80)
  }

  // ---------------------------------------------------------------------------------------------
  // Reading

  /** `read_varint`: walks `pos` forward one byte at a time. The `|=` of the source adds a group
      whose bits lie above every bit already set, so it is written as an addition. */
  method ReadVarint(buf: seq<byte>, start: nat) returns (r: Result<u64, WireError>, pos: nat)
    requires start <= |buf|
    ensures start <= pos <= |buf|
    ensures match Decode(buf[start..])
            case Err(e) => r == Err(e)
            case Ok((v, n)) => r == Ok(v) && pos == start + n
  {
    ghost var rest := buf[start..];
    var value: u64 := 0;
    var shift: nat := 0;
    ghost var i: nat := 0;
    pos := start;
    while true
      invariant start <= pos <= |buf| && pos == start + i
      invariant i <= 10 && shift == 7 * i
      invariant i <= 9 ==> value == Groups(rest[..i])
      invariant ScanFrom(rest, 0) == ScanFrom(rest, i)
      decreases |buf| - pos
    {
      if pos >= |buf| {
        return Err(VarintOverrun), pos;
      }
      if shift >= 64 {
        return Err(VarintTooLong), pos;
      }
      var b := buf[pos];
      pos := pos + 1;
      assert rest[..i] + [b] == rest[..i + 1];
      AddGroup(rest[..i], b);
      value := value + ShiftLeft(b % 0x80, shift);
      if b < 0x80 {
        return Ok(value), pos;
      }
      shift := shift + 7;
      i := i + 1;
    }
  }

  /** One step of the loop: the sum stays a `u64`, and only the tenth group can lose bits. */
  lemma AddGroup(s: seq<byte>, b: byte)
    requires |s| <= 9
    ensures Groups(s) + ShiftLeft(b % 0x80, 7 * |s|) == Groups(s + [b]) % TWO64
    ensures |s| <= 8 ==> Groups(s + [b]) < TWO64
  {
    GroupsSnoc(s, b);
    GroupBounds(s, b % 0x80, 7 * |s|);
    AddGroupBits(Groups(s), b % 0x80, Doubled(b % 0x80, 7 * |s|), |s| <= 8);
  }

  lemma GroupBounds(s: seq<byte>, x: byte, shift: nat)
    requires |s| <= 9 && shift == 7 * |s| && x < 0x80
    ensures shift < 63 ==> Groups(s) + Doubled(x, shift) < TWO64
    ensures Groups(s) < TWO63
    ensures shift == 63 ==> Doubled(x, shift) == TWO63 * x
  {
    hide Groups, Doubled;
    GroupsBound(s);
    DoubledAt(1);
    DoubledMono(1, 1, 7 * |s|, 63);
    if |s| <= 8 {
      DoubledMono(x, 0x80, 7 * |s|, 56);
      DoubledAt(0x80);
    } else {
      DoubledAt(x);
    }
  }

  lemma AddGroupBits(g: nat, x: nat, m: nat, low: bool)
    requires if low then g + m < TWO64 else g < TWO63 && m == TWO63 * x
    ensures g + m % TWO64 == (g + m) % TWO64
  {
    if !low {
      assert m == (x / 2) * TWO64 + (x % 2) * TWO63;
    }
  }

  lemma DoubledBySeven(x: nat, n: nat)
    ensures Doubled(x, n + 7) == 0x80 * Doubled(x, n)
  {
    assert Doubled(x, n + 7) == 2 * Doubled(x, n + 6) == 4 * Doubled(x, n + 5) == 8 * Doubled(x, n + 4);
    assert Doubled(x, n + 4) == 2 * Doubled(x, n + 3) == 4 * Doubled(x, n + 2) == 8 * Doubled(x, n + 1);
  }

  /** Eight, nine and ten groups of seven bits. */
  lemma DoubledAt(x: nat)
    ensures Doubled(x, 56) == TWO56 * x && Doubled(x, 63) == TWO63 * x && Doubled(x, 70) == TWO70 * x
  {
    assert Doubled(x, 0) == x;
    hide Doubled;
    DoubledBySeven(x, 0);
    DoubledBySeven(x, 7);
    DoubledBySeven(x, 14);
    DoubledBySeven(x, 21);
    DoubledBySeven(x, 28);
    DoubledBySeven(x, 35);
    DoubledBySeven(x, 42);
    DoubledBySeven(x, 49);
    DoubledBySeven(x, 56);
    DoubledBySeven(x, 63);
  }

  lemma {:induction false} DoubledMono(x: nat, y: nat, m: nat, n: nat)
    requires x <= y && m <= n
    ensures Doubled(x, m) <= Doubled(y, n)
    decreases m + n
  {
    if m < n {
      DoubledMono(x, y, m, n - 1);
    } else if m > 0 {
      DoubledMono(x, y, m - 1, n - 1);
    }
  }

  lemma {:induction false} GroupsSnoc(s: seq<byte>, b: byte)
    ensures Groups(s + [b]) == Groups(s) + Doubled(b % 0x80, 7 * |s|)
  {
    if s == [] {
      assert Groups([b]) == b % 0x80 + 0x80 * Groups([]);
    } else {
      GroupsSnoc(s[1..], b);
      assert (s + [b])[1..] == s[1..] + [b];
      DoubledBySeven(b % 0x80, 7 * |s| - 7);
    }
  }

  lemma {:induction false} GroupsBound(s: seq<byte>)
    ensures Groups(s) < Doubled(1, 7 * |s|)
  {
    if s != [] {
      GroupsBound(s[1..]);
      DoubledBySeven(1, 7 * |s| - 7);
    }
  }

  // ---------------------------------------------------------------------------------------------
  // Writing

  /** `write_varint`: appends seven bits at a time, low group first. */
  method WriteVarint(out: seq<byte>, value: nat) returns (res: seq<byte>)
    ensures res == out + Encode(value)
  {
    res := out;
    var v := value;
    while true
      invariant 0 <= v <= value
      invariant res + Encode(v) == out + Encode(value)
      decreases v
    {
      var b: byte := v % 0x80;
      ghost var e := Encode(v);
      v := v / 0x80;
      if v == 0 {
        res := res + [b];
        return;
      }
      assert e == [b + 0x80] + Encode(v);
      res := res + [b + 0x80];
    }
  }

  // ---------------------------------------------------------------------------------------------
  // The codec

  /** A scan succeeds exactly at the end of a complete varint. */
  lemma {:induction false} ScanFindsVarint(buf: seq<byte>, n: nat, k: nat)
    requires n < k <= |buf|
    requires forall i :: n <= i < k - 1 ==> buf[i] >= 0x80
    requires buf[k - 1] < 0x80
    requires k <= 10
    ensures ScanFrom(buf, n) == Ok(k)
    decreases k - n
  {
    if n < k - 1 {
      ScanFindsVarint(buf, n + 1, k);
    }
  }

  lemma {:induction false} ScanResult(buf: seq<byte>, n: nat)
    requires n <= |buf| && n <= 10
    requires forall i :: 0 <= i < n ==> buf[i] >= 0x80
    ensures match ScanFrom(buf, n)
            case Ok(k) => IsVarint(buf[..k])
            case Err(e) =>
              && (e == VarintOverrun <==> |buf| <= 10 && forall i :: 0 <= i < |buf| ==> buf[i] >= 0x80)
              && (e == VarintTooLong <==> |buf| > 10 && forall i :: 0 <= i < 10 ==> buf[i] >= 0x80)
    decreases |buf| - n
  {
    if n < |buf| && n < 10 && buf[n] >= 0x80 {
      ScanResult(buf, n + 1);
    }
  }

  /** Decoding succeeds exactly when some prefix is a complete varint, whatever follows it; the
      two errors split the remaining buffers by whether ten continuation bytes fit. */
  lemma DecodeExact(buf: seq<byte>)
    ensures forall n: nat :: n <= |buf| && IsVarint(buf[..n])
                          ==> Decode(buf) == Ok((Groups(buf[..n]) % TWO64, n))
    ensures match Decode(buf)
            case Ok((v, n)) => IsVarint(buf[..n]) && v == Groups(buf[..n]) % TWO64
            case Err(e) =>
              && (e == VarintOverrun <==> |buf| <= 10 && forall i :: 0 <= i < |buf| ==> buf[i] >= 0x80)
              && (e == VarintTooLong <==> |buf| > 10 && forall i :: 0 <= i < 10 ==> buf[i] >= 0x80)
  {
    ScanResult(buf, 0);
    forall n: nat | n <= |buf| && IsVarint(buf[..n])
      ensures Decode(buf) == Ok((Groups(buf[..n]) % TWO64, n))
    {
      assert forall i :: 0 <= i < n ==> buf[..n][i] == buf[i];
      ScanFindsVarint(buf, 0, n);
    }
  }

  lemma {:induction false} EncodeShape(v: nat, n: nat)
    requires 0 < n && v < Doubled(1, 7 * n)
    ensures |Encode(v)| <= n
    ensures Groups(Encode(v)) == v
    ensures var s := Encode(v);
            s[|s| - 1] < 0x80 && forall i :: 0 <= i < |s| - 1 ==> s[i] >= 0x80
    decreases n
  {
    if v < 0x80 {
      assert Groups([v]) == v % 0x80 + 0x80 * Groups([]);
    } else {
      DoubledBySeven(1, 7 * n - 7);
      if n > 1 {
        EncodeShape(v / 0x80, n - 1);
        var t := Encode(v / 0x80);
        assert Encode(v)[1..] == t;
      }
    }
  }

  lemma EncodeFits(v: u64)
    ensures IsVarint(Encode(v)) && Groups(Encode(v)) == v
  {
    hide Doubled, Groups;
    DoubledAt(1);
    EncodeShape(v, 10);
  }

  /** Round trip in context: between any bytes, reading at the start of an encoded `u64` gives the
      value back and stops exactly at its end. */
  lemma RoundTrip(v: u64, post: seq<byte>)
    ensures IsVarint(Encode(v))
    ensures Decode(Encode(v) + post) == Ok((v, |Encode(v)|))
  {
    EncodeFits(v);
    var s := Encode(v);
    assert (s + post)[..|s|] == s;
    DecodeExact(s + post);
  }

  /** Encodings are minimal: no varint that reads back as `v` is shorter than `Encode(v)`. */
  lemma EncodeMinimal(v: u64, s: seq<byte>)
    requires IsVarint(s) && Groups(s) % TWO64 == v
    ensures |Encode(v)| <= |s|
  {
    GroupsBound(s);
    assert Groups(s) >= v;
    EncodeShape(v, |s|);
  }

  /** Decoding looks at no byte after the varint. */
  lemma DecodePrefix(buf: seq<byte>, post: seq<byte>)
    requires Decode(buf).Ok?
    ensures Decode(buf + post) == Decode(buf)
  {
    DecodeExact(buf);
    DecodeExact(buf + post);
    var n := Decode(buf).value.1;
    assert (buf + post)[..n] == buf[..n];
  }
}
