/** The user id inside a finger_info reply, extracted by the Rust driver, by the patched C helper
    and by the C helper as it was upstream. */
module UserId {
  import opened Wrappers
  import opened Bytes
  import opened Proto
  import opened Device

  // ---- Rust --------------------------------------------------------------

  /** An id without a trailing NUL comes back from any zero-padded reply with an ordinary status. */
  lemma UserIdRoundTrip(pid: bv16, index: byte, header: seq<byte>, id: seq<byte>, pad: nat)
    requires |header| == (if pid == 0x0c5e then 3 else 2) && header[1] < 16
    requires NoTrailingZero(id)
    ensures ParseFingerInfo(pid, index, header + id + Zeros(pad)) == Ok(Info(index, id))
  {
    var r := header + id + Zeros(pad);
    assert r[1] == header[1] && r[|header|..] == id + Zeros(pad);
    StatusExact(header[1]);
    TrimPadded(id, pad);
  }

  /** Which replies parse, and what a parsed one is: its header, the id, and zeros. */
  lemma ParsedReplyRepads(pid: bv16, index: byte, r: seq<byte>)
    ensures var off, p := if pid == 0x0c5e then 3 else 2, ParseFingerInfo(pid, index, r);
            && (p.Ok? <==> |r| >= off && r[1] < 16)
            && (p.Ok? ==>
                  && p.value.index == index
                  && NoTrailingZero(p.value.userId)
                  && |p.value.userId| <= |r| - off
                  && r == r[..off] + p.value.userId + Zeros(|r| - off - |p.value.userId|))
  {
    var off, p := UserIdOffset(pid), ParseFingerInfo(pid, index, r);
    FingerInfoExact(pid, index, r);
    if p.Ok? {
      TrimThenPad(r[off..]);
      var id := p.value.userId;
      assert r == r[..off] + (id + Zeros(|r| - off - |id|));
    }
  }

  // ---- lengths in C ------------------------------------------------------

  const GSIZE: nat := 0x1_0000_0000_0000_0000
  const GUINT: nat := 0x1_0000_0000

  function COffset(is0c5e: bool): nat {
    if is0c5e then 3 else 2
  }

  function UserIdMax(is0c5e: bool): nat {
    64 - COffset(is0c5e)
  }

  /** Compares before subtracting. */
  function PatchedLength(is0c5e: bool, len: nat): nat {
    if len > COffset(is0c5e) then Min(UserIdMax(is0c5e), len - COffset(is0c5e)) else 0
  }

  /** Subtracts in unsigned 64-bit arithmetic and stores the minimum in a guint. */
  function UpstreamLength(is0c5e: bool, len: nat): nat {
    Min(UserIdMax(is0c5e), (len - COffset(is0c5e)) % GSIZE) % GUINT
  }

  /** For every 64-bit reply length, the patched length is the saturated one, the upstream length
      agrees with it exactly when the reply is as long as its header, and the bytes each reads are
      inside the reply always, and exactly then. */
  lemma LengthsAgreeIff(is0c5e: bool, len: nat)
    requires len < GSIZE
    ensures var off, patched, upstream := if is0c5e then 3 else 2, PatchedLength(is0c5e, len), UpstreamLength(is0c5e, len);
            && patched == (if len <= off then 0 else if len <= 64 then len - off else 64 - off)
            && (patched > 0 ==> off + patched <= len)
            && (patched == upstream <==> len >= off)
            && (off + upstream <= len <==> len >= off)
            && (len < off ==> upstream == 64 - off)
  {
    var off := COffset(is0c5e);
    if len >= off {
      assert (len - off) % GSIZE == len - off;
    } else {
      assert (len - off) % GSIZE == len - off + GSIZE;
    }
  }

  // ---- the patched helper and its callers --------------------------------

  function CPayload(is0c5e: bool, resp: seq<byte>): seq<byte> {
    var n := PatchedLength(is0c5e, |resp|);
    if n == 0 then [] else resp[COffset(is0c5e)..COffset(is0c5e) + n]
  }

  /** The helper allocates one byte more than it copies, so its buffer is always terminated. */
  method GetUserIdString(is0c5e: bool, resp: seq<byte>) returns (userId: array<byte>, outLen: nat)
    ensures fresh(userId) && userId.Length == outLen + 1
    ensures userId[..outLen] == CPayload(is0c5e, resp) && userId[outLen] == 0
    ensures var off := if is0c5e then 3 else 2;
            && outLen == (if |resp| <= off then 0 else if |resp| <= 64 then |resp| - off else 64 - off)
            && forall k :: 0 <= k < outLen ==> userId[k] == resp[off + k]
  {
    var respLen, offset := |resp|, COffset(is0c5e);
    var maxLen := 0;
    if respLen > offset {
      maxLen := Min(UserIdMax(is0c5e), respLen - offset);
    }
    userId := new byte[maxLen + 1](_ => 0);
    if maxLen > 0 {
      forall k | 0 <= k < maxLen {
        userId[k] := resp[offset + k];
      }
    }
    outLen := maxLen;
  }

  function Strnlen(s: seq<byte>): (n: nat)
    ensures n <= |s|
    ensures forall k :: 0 <= k < n ==> s[k] != 0
    ensures n < |s| ==> s[n] == 0
  {
    if s == [] || s[0] == 0 then 0 else 1 + Strnlen(s[1..])
  }

  /** Whether the terminated string starts with "FP". */
  predicate HasFpPrefix(s: seq<byte>) {
    |s| >= 2 && s[0] == 0x46 && s[1] == 0x50
  }

  /** The id stored with a print: cut at the first NUL if libfprint wrote it, whole otherwise. */
  function PrintUserId(payload: seq<byte>): (id: seq<byte>)
    ensures id <= payload
  {
    if HasFpPrefix(payload) then payload[..Strnlen(payload)] else payload
  }

  /** The two letters decide: an id that begins with them is stored up to its first NUL, and any
      other payload is stored whole, NULs and all. */
  lemma StoredIdExact(payload: seq<byte>)
    ensures var id, fp := PrintUserId(payload), [0x46, 0x50] <= payload;
            var upToFirstNul := 0 !in id && id <= payload && (|id| < |payload| ==> payload[|id|] == 0);
            && (upToFirstNul <==> fp || 0 !in payload)
            && (!fp ==> id == payload)
  {
    var id := PrintUserId(payload);
    assert HasFpPrefix(payload) <==> [0x46, 0x50] <= payload;
    if id == payload[..Strnlen(payload)] {
      assert 0 !in id;
    }
  }

  /** The terminator is what keeps the prefix test inside the buffer. */
  method NewPrintUserId(is0c5e: bool, resp: seq<byte>) returns (id: seq<byte>)
    ensures id == PrintUserId(CPayload(is0c5e, resp))
  {
    var userId, userIdLen := GetUserIdString(is0c5e, resp);
    ghost var payload := CPayload(is0c5e, resp);
    assert forall k :: 0 <= k < |payload| ==> userId[k] == payload[k];
    assert userIdLen < userId.Length && userId[userIdLen] == 0;
    if userId[0] == 0x46 && userId[1] == 0x50 {
      var n := 0;
      while n < userIdLen && userId[n] != 0
        invariant n <= userIdLen
        invariant forall k :: 0 <= k < n ==> payload[k] != 0
      {
        n := n + 1;
      }
      assert n == Strnlen(payload);
      userIdLen := n;
    }
    id := userId[..userIdLen];
  }

  // ---- agreement ---------------------------------------------------------

  /** Trimming trailing NULs and cutting at the first NUL give the same id exactly when nothing
      but NULs follows the first. */
  lemma TrimIsCutIff(s: seq<byte>)
    ensures Trim(s) == s[..Strnlen(s)] <==> AllZero(s[Strnlen(s)..])
  {
    var n, t := Strnlen(s), |Trim(s)|;
    TrimTail(s);
    if AllZero(s[n..]) {
      assert forall k :: n <= k < |s| ==> s[n..][k - n] == s[k];
      assert t == n;
    }
  }

  /** On every reply with an ordinary status that reaches past the header, the Rust id is the C
      payload without trailing NULs. It is the id C stores exactly when nothing nonzero follows
      the first NUL of an "FP" id, or the other kind of id does not end in a NUL. */
  lemma RustAgreesWithC(pid: bv16, index: byte, r: seq<byte>)
    requires (if pid == 0x0c5e then 3 else 2) <= |r| <= 64 && r[1] < 16
    ensures var rust, c := ParseFingerInfo(pid, index, r), CPayload(pid == PID_0C5E, r);
            && rust.Ok? && rust.value.userId == Trim(c)
            && (rust.value.userId == PrintUserId(c) <==>
                if [0x46, 0x50] <= c then AllZero(c[Strnlen(c)..]) else NoTrailingZero(c))
  {
    hide StatusFromByte, Trim, ParseFingerInfo, CPayload, PrintUserId;
    var c := CPayload(pid == PID_0C5E, r);
    BothReadTheSameBytes(pid, index, r);
    StoredId(c);
    TrimThenPad(c);
    TrimIsCutIff(c);
  }

  lemma BothReadTheSameBytes(pid: bv16, index: byte, r: seq<byte>)
    requires (if pid == 0x0c5e then 3 else 2) <= |r| <= 64 && r[1] < 16
    ensures ParseFingerInfo(pid, index, r) == Ok(Info(index, Trim(CPayload(pid == PID_0C5E, r))))
  {
    hide StatusFromByte, Trim;
    StatusExact(r[1]);
    assert CPayload(pid == PID_0C5E, r) == r[UserIdOffset(pid)..];
  }

  lemma StoredId(payload: seq<byte>)
    ensures PrintUserId(payload) == if [0x46, 0x50] <= payload then payload[..Strnlen(payload)] else payload
  {
    assert HasFpPrefix(payload) <==> [0x46, 0x50] <= payload;
  }
}
