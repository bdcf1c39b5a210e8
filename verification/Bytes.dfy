/** Bytes, bounds, zero padding, and the trailing-zero trim that undoes the padding. */
module Bytes {
  type byte = bv8

  function Min(a: int, b: int): int {
    if a < b then a else b
  }

  function Max(a: int, b: int): int {
    if a > b then a else b
  }

  /** A byte as a number. */
  function Num(b: byte): (n: nat)
    ensures n < 256 && (n == 0 <==> b == 0)
  {
    b as int
  }

  function Zeros(n: nat): (z: seq<byte>)
    ensures |z| == n
    ensures forall k :: 0 <= k < n ==> z[k] == 0
  {
    seq(n, _ => 0)
  }

  predicate AllZero(s: seq<byte>) {
    forall k :: 0 <= k < |s| ==> s[k] == 0
  }

  predicate NoTrailingZero(s: seq<byte>) {
    s == [] || s[|s| - 1] != 0
  }

  /** Drops every zero byte from the end of `s`. */
  function Trim(s: seq<byte>): seq<byte> {
    if s != [] && s[|s| - 1] == 0 then Trim(s[..|s| - 1]) else s
  }

  /** What is trimmed is a prefix, ends in no zero, and padding it with zeros gives the input back. */
  lemma {:induction false} TrimThenPad(s: seq<byte>)
    ensures |Trim(s)| <= |s|
    ensures Trim(s) + Zeros(|s| - |Trim(s)|) == s
    ensures NoTrailingZero(Trim(s))
  {
    if s != [] && s[|s| - 1] == 0 {
      TrimThenPad(s[..|s| - 1]);
      assert s == s[..|s| - 1] + [0];
      assert Zeros(|s| - |Trim(s)|) == Zeros(|s| - 1 - |Trim(s)|) + [0];
    }
  }

  /** The trim is the shortest prefix that leaves only zeros behind. */
  lemma {:induction false} TrimTail(s: seq<byte>)
    ensures Trim(s) <= s && NoTrailingZero(Trim(s))
    ensures forall k :: |Trim(s)| <= k < |s| ==> s[k] == 0
  {
    if s != [] && s[|s| - 1] == 0 {
      TrimTail(s[..|s| - 1]);
    }
  }

  lemma {:induction false} TrimPadded(s: seq<byte>, n: nat)
    ensures Trim(s + Zeros(n)) == Trim(s)
  {
    if n == 0 {
      assert s + Zeros(0) == s;
    } else {
      assert (s + Zeros(n))[..|s| + n - 1] == s + Zeros(n - 1);
      TrimPadded(s, n - 1);
    }
  }

  /** Padding a string or its trim to the same length gives the same bytes. */
  lemma {:induction false} PadTrimmed(s: seq<byte>, n: nat)
    requires |s| <= n
    ensures |Trim(s)| <= n && s + Zeros(n - |s|) == Trim(s) + Zeros(n - |Trim(s)|)
  {
    if s != [] && s[|s| - 1] == 0 {
      var t := s[..|s| - 1];
      PadTrimmed(t, n);
      assert s + Zeros(n - |s|) == t + Zeros(n - |t|);
    }
  }

  /** Two byte strings have the same trim exactly when zero padding makes them equal. */
  lemma TrimEqualIff(a: seq<byte>, b: seq<byte>, n: nat)
    requires |a| <= n && |b| <= n
    ensures Trim(a) == Trim(b) <==> a + Zeros(n - |a|) == b + Zeros(n - |b|)
  {
    hide Trim, Zeros;
    TrimPadded(a, n - |a|);
    TrimPadded(b, n - |b|);
    PadTrimmed(a, n);
    PadTrimmed(b, n);
  }
}
