/** Fixed-width integers and text as bytes. */
module Encodings {
  import opened Common

  function Pow256(k: nat): (n: nat) {
    if k == 0 then 1 else 256 * Pow256(k - 1)
  }

  /** The `k` low-order bytes of `n`, least significant first: `to_le_bytes`. */
  function ToLe(n: nat, k: nat): (s: Bytes)
    ensures |s| == k
    decreases k
  {
    if k == 0 then [] else [n % 256] + ToLe(n / 256, k - 1)
  }

  /** `from_le_bytes` */
  function FromLe(s: Bytes): (n: nat) {
    if s == [] then 0 else s[0] + 256 * FromLe(s[1..])
  }

  lemma {:induction false} FromToLe(n: nat, k: nat)
    requires n < Pow256(k)
    ensures FromLe(ToLe(n, k)) == n
    decreases k
  {
    if k == 0 {
    } else {
      FromToLe(n / 256, k - 1);
      assert ToLe(n, k)[1..] == ToLe(n / 256, k - 1);
    }
  }

  lemma {:induction false} ToFromLe(s: Bytes)
    ensures FromLe(s) < Pow256(|s|) && ToLe(FromLe(s), |s|) == s
  {
    if s == [] {
    } else {
      ToFromLe(s[1..]);
      assert FromLe(s) % 256 == s[0] && FromLe(s) / 256 == FromLe(s[1..]);
    }
  }

  lemma Widths()
    ensures Pow256(4) == U32_MAX + 1 && Pow256(8) == U64_MAX + 1
  {
    assert Pow256(2) == 0x1_0000;
    assert Pow256(4) == 0x1_0000_0000;
    assert Pow256(6) == 0x1_0000_0000_0000;
  }

  lemma FromToLe32(n: nat)
    requires n <= U32_MAX
    ensures FromLe(ToLe(n, 4)) == n
  {
    Widths();
    FromToLe(n, 4);
  }

  lemma FromToLe64(n: nat)
    requires n <= U64_MAX
    ensures FromLe(ToLe(n, 8)) == n
  {
    Widths();
    FromToLe(n, 8);
  }

  datatype Taken = Missing | Taken(value: nat, rest: Bytes)

  /** Reads a `k`-byte integer off the front of `s`. */
  function TakeLe(s: Bytes, k: nat): (t: Taken)
    ensures t.Taken? ==> |t.rest| + k == |s|
  {
    if |s| < k then Missing else Taken(FromLe(s[..k]), s[k..])
  }

  lemma TakeToLe(n: nat, k: nat, rest: Bytes)
    requires n < Pow256(k)
    ensures TakeLe(ToLe(n, k) + rest, k) == Taken(n, rest)
  {
    FromToLe(n, k);
    var s := ToLe(n, k) + rest;
    assert s[..k] == ToLe(n, k) && s[k..] == rest;
  }

  lemma TakeIsToLe(s: Bytes, k: nat)
    requires TakeLe(s, k).Taken?
    ensures var t := TakeLe(s, k); t.value < Pow256(k) && s == ToLe(t.value, k) + t.rest
  {
    ToFromLe(s[..k]);
    assert s == s[..k] + s[k..];
  }

  /** The bytes of an ASCII literal. */
  function Ascii(s: string): (r: Bytes)
    requires forall i :: 0 <= i < |s| ==> s[i] as int < 128
    ensures |r| == |s| && forall i :: 0 <= i < |s| ==> r[i] == s[i] as int
  {
    seq(|s|, i requires 0 <= i < |s| => s[i] as int)
  }

  predicate Continuation(b: byte) {
    0x80 <= b < 0xC0
  }

  /** Well-formed UTF-8, as in table 3-7 of the Unicode standard. */
  predicate IsUtf8(s: Bytes) {
    if s == [] then true
    else if s[0] < 0x80 then IsUtf8(s[1..])
    else if 0xC2 <= s[0] < 0xE0 then
      |s| >= 2 && Continuation(s[1]) && IsUtf8(s[2..])
    else if 0xE0 <= s[0] < 0xF0 then
      && |s| >= 3 && Continuation(s[1]) && Continuation(s[2])
      && (s[0] == 0xE0 ==> s[1] >= 0xA0) && (s[0] == 0xED ==> s[1] < 0xA0)
      && IsUtf8(s[3..])
    else if 0xF0 <= s[0] < 0xF5 then
      && |s| >= 4 && Continuation(s[1]) && Continuation(s[2]) && Continuation(s[3])
      && (s[0] == 0xF0 ==> s[1] >= 0x90) && (s[0] == 0xF4 ==> s[1] < 0x90)
      && IsUtf8(s[4..])
    else false
  }

  /** Two splits of one string at the same place are the same split. */
  lemma TailsAgree(a: Bytes, x: Bytes, b: Bytes, y: Bytes)
    requires |a| == |b| && a + x == b + y
    ensures a == b && x == y
  {
    assert (a + x)[..|a|] == a && (b + y)[..|b|] == b;
    assert (a + x)[|a|..] == x && (b + y)[|b|..] == y;
  }
}
