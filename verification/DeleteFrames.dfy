/** The 72-byte delete request, built three times over: by the enroll path and by the delete
    operation of the C driver, and by the Rust driver's framing. */
module DeleteFrames {
  import opened Wrappers
  import opened Bytes
  import opened Proto
  import opened Sensor
  import opened Device
  import opened UserId

  const OUT_LEN: nat := 72
  const USER_ID_CAP: nat := 68

  /** The slot code, truncated to the byte it is stored in. */
  function SlotByte(id: byte): byte {
    0xf0 | (id + 5)
  }

  /** Two ids share a slot byte exactly when they agree modulo 16, so every slot that an ordinary
      identify status can name is encoded distinctly, and the sensor's decoding recovers it. */
  lemma SlotByteExact(a: byte, b: byte)
    ensures SlotByte(a) == 0xf0 + (a + 5) % 16
    ensures SlotByte(a) == SlotByte(b) <==> a % 16 == b % 16
    ensures SlotOfCode(SlotByte(a)) == Slot(a % 16)
    ensures StatusFromByte(a).Ordinary? ==> SlotOfCode(SlotByte(a)) == Slot(a)
  {
  }

  function DeleteFrame(id: byte, userId: seq<byte>): seq<byte>
    requires |userId| <= USER_ID_CAP
  {
    [0x40, 0xff, 0x13, SlotByte(id)] + userId + Zeros(USER_ID_CAP - |userId|)
  }

  /** A zeroed buffer with the magic and the opcode in place, when one can be had. */
  method PrepareCmd(prepared: bool) returns (buf: Option<array<byte>>)
    ensures buf.Some? <==> prepared
    ensures buf.Some? ==> fresh(buf.value) && buf.value.Length == OUT_LEN
    ensures buf.Some? ==> buf.value[..] == [0x40, 0xff, 0x13] + Zeros(OUT_LEN - 3)
  {
    if !prepared {
      return None;
    }
    var out := new byte[OUT_LEN](_ => 0);
    out[0], out[1], out[2] := 0x40, 0xff, 0x13;
    return Some(out);
  }

  /** ENROLL_ATTEMPT_DELETE: copies as much of the padded payload as the sensor returned. */
  method EnrollDeleteFrame(is0c5e: bool, resp: seq<byte>, printIndex: byte, prepared: bool)
    returns (buf: Option<array<byte>>)
    ensures buf.Some? <==> prepared
    ensures buf.Some? ==> fresh(buf.value) && |CPayload(is0c5e, resp)| <= USER_ID_CAP
    ensures buf.Some? ==> buf.value[..] == DeleteFrame(printIndex, CPayload(is0c5e, resp))
  {
    var userId, userIdLen := GetUserIdString(is0c5e, resp);
    buf := PrepareCmd(prepared);
    if buf.None? {
      return;
    }
    var out, n := buf.value, Min(OUT_LEN - 4, userIdLen);
    out[3] := SlotByte(printIndex);
    if n > 0 {
      forall k | 0 <= k < n {
        out[4 + k] := userId[k];
      }
    }
    assert out[..] == DeleteFrame(printIndex, userId[..n]);
  }

  /** DELETE_SEND: copies the id kept with the operation. */
  method DeleteSendFrame(fingerId: byte, userId: seq<byte>, prepared: bool) returns (buf: Option<array<byte>>)
    requires |userId| <= USER_ID_CAP
    ensures buf.Some? <==> prepared
    ensures buf.Some? ==> fresh(buf.value) && buf.value[..] == DeleteFrame(fingerId, userId)
  {
    buf := PrepareCmd(prepared);
    if buf.None? {
      return;
    }
    var out, n := buf.value, Min(OUT_LEN - 4, |userId|);
    out[3] := SlotByte(fingerId);
    forall k | 0 <= k < n {
      out[4 + k] := userId[k];
    }
    assert out[..] == DeleteFrame(fingerId, userId);
  }

  lemma RustDeleteFrame(id: byte, userId: seq<byte>)
    requires |userId| <= USER_ID_CAP
    ensures Frame(DELETE, [SlotByte(id)] + userId) == Some(DeleteFrame(id, userId))
    ensures Decode(DeleteFrame(id, userId)) == Delete(SlotByte(id))
  {
    assert [FRAME_MAGIC] + DELETE.cmd + ([SlotByte(id)] + userId) == [0x40, 0xff, 0x13, SlotByte(id)] + userId;
  }

  lemma DeleteFramesEqualIff(id: byte, p: seq<byte>, q: seq<byte>)
    requires |p| <= USER_ID_CAP && |q| <= USER_ID_CAP
    ensures DeleteFrame(id, p) == DeleteFrame(id, q) <==> Trim(p) == Trim(q)
  {
    var head := [0x40, 0xff, 0x13, SlotByte(id)];
    TrimEqualIff(p, q, USER_ID_CAP);
    var pp, qq := p + Zeros(USER_ID_CAP - |p|), q + Zeros(USER_ID_CAP - |q|);
    assert DeleteFrame(id, p) == head + pp && DeleteFrame(id, q) == head + qq;
    assert (head + pp)[4..] == pp && (head + qq)[4..] == qq;
  }

  lemma PayloadFits(is0c5e: bool, resp: seq<byte>)
    ensures |CPayload(is0c5e, resp)| <= USER_ID_CAP
    ensures |PrintUserId(CPayload(is0c5e, resp))| <= USER_ID_CAP
  {
  }

  /** One copies the whole payload, the other the id cut at its first NUL: for one slot and one
      reply they send the same 72 bytes, which are also the Rust frame, exactly when an "FP"
      payload holds nothing but NULs after its first. */
  lemma DeletePathsAgreeIff(is0c5e: bool, resp: seq<byte>, slot: byte)
    ensures |CPayload(is0c5e, resp)| <= USER_ID_CAP && |PrintUserId(CPayload(is0c5e, resp))| <= USER_ID_CAP
    ensures var payload := CPayload(is0c5e, resp);
            var id := PrintUserId(payload);
            && Frame(DELETE, [SlotByte(slot)] + id) == Some(DeleteFrame(slot, id))
            && |DeleteFrame(slot, payload)| == |DeleteFrame(slot, id)| == OUT_LEN
            && (DeleteFrame(slot, payload) == DeleteFrame(slot, id) <==>
                [0x46, 0x50] <= payload ==> AllZero(payload[Strnlen(payload)..]))
  {
    PayloadFits(is0c5e, resp);
    var payload := CPayload(is0c5e, resp);
    var id := PrintUserId(payload);
    RustDeleteFrame(slot, id);
    DeleteFramesEqualIff(slot, payload, id);
    TrimIsCutIff(payload);
  }

  /** An id as libfprint writes it, sent back zero-padded: Rust and C read the same id out of it,
      and both delete paths and the Rust framing name it in the same 72 bytes. */
  lemma WellFormedIdAgrees(pid: bv16, index: byte, header: seq<byte>, id: seq<byte>, slot: byte)
    requires |header| == (if pid == 0x0c5e then 3 else 2) && header[1] < 16
    requires [0x46, 0x50] <= id && |header| + |id| <= 64 && (forall k :: 0 <= k < |id| ==> id[k] != 0)
    ensures var r := header + id + Zeros(64 - |header| - |id|);
            var payload := CPayload(pid == PID_0C5E, r);
            && ParseFingerInfo(pid, index, r) == Ok(Info(index, id))
            && PrintUserId(payload) == id
            && |payload| <= USER_ID_CAP
            && Some(DeleteFrame(slot, payload)) == Some(DeleteFrame(slot, id)) == Frame(DELETE, [SlotByte(slot)] + id)
  {
    var pad := 64 - |header| - |id|;
    UserIdRoundTrip(pid, index, header, id, pad);
    PaddedPayload(pid == PID_0C5E, header, id, pad);
    hide CPayload, PrintUserId, DeleteFrame, ParseFingerInfo;
    CutPadded(id, pad);
    TrimPadded(id, pad);
    DeleteFramesEqualIff(slot, id + Zeros(pad), id);
    RustDeleteFrame(slot, id);
  }

  lemma PaddedPayload(is0c5e: bool, header: seq<byte>, id: seq<byte>, pad: nat)
    requires |header| == COffset(is0c5e) && |header| + |id| + pad == 64
    ensures CPayload(is0c5e, header + id + Zeros(pad)) == id + Zeros(pad)
  {
    var r := header + id + Zeros(pad);
    assert r == header + (id + Zeros(pad));
    assert r[|header|..] == id + Zeros(pad);
  }

  lemma CutPadded(id: seq<byte>, pad: nat)
    requires [0x46, 0x50] <= id && forall k :: 0 <= k < |id| ==> id[k] != 0
    ensures PrintUserId(id + Zeros(pad)) == id
  {
    var p := id + Zeros(pad);
    assert forall k :: 0 <= k < |id| ==> p[k] == id[k];
    assert pad > 0 ==> p[|id|] == 0;
    assert p[..|id|] == id;
  }
}
