/** The probe's walk over class-specific descriptors (src/bin/probe.rs): bLength-driven, as
    section 9.5 of USB 2.0 lays descriptors out, looking for the HID descriptor of section 6.2.1
    of HID 1.11. */
module DescriptorWalk {
  import opened Bytes

  datatype HidDescriptor = HidDescriptor(bcdHigh: byte, bcdLow: byte, country: byte, numDesc: byte, subType: byte, subLength: bv16)

  const HID_TYPE: byte := 0x21

  function U16FromLe(lo: byte, hi: byte): bv16 {
    (lo as bv16) | ((hi as bv16) << 8)
  }

  predicate IsHid(d: seq<byte>) {
    |d| >= 9 && d[1] == HID_TYPE
  }

  function ReadHid(d: seq<byte>): HidDescriptor
    requires |d| >= 9
  {
    HidDescriptor(d[3], d[2], d[4], d[5], d[6], U16FromLe(d[7], d[8]))
  }

  function Reported(d: seq<byte>): seq<HidDescriptor> {
    if IsHid(d) then [ReadHid(d)] else []
  }

  /** Where the walk gives up: no room for a header, a zero length, or a length past the end. */
  predicate Stops(s: seq<byte>) {
    |s| < 2 || Num(s[0]) == 0 || Num(s[0]) > |s|
  }

  /** What the walk reports from here on, and where it looks. */
  function Walk(s: seq<byte>): seq<HidDescriptor> {
    if Stops(s) then []
    else Reported(s[..Num(s[0])]) + Walk(s[Num(s[0])..])
  }

  function Visits(s: seq<byte>, at: nat): seq<nat> {
    if Stops(s) then []
    else [at] + Visits(s[Num(s[0])..], at + Num(s[0]))
  }

  lemma WalkStep(s: seq<byte>, i: nat)
    requires i <= |s| && !Stops(s[i..])
    ensures var next := i + Num(s[i]);
            && i < next <= |s|
            && Walk(s[i..]) == Reported(s[i..next]) + Walk(s[next..])
            && Visits(s[i..], i) == [i] + Visits(s[next..], next)
  {
    hide Reported, Num;
    var next := i + Num(s[i]);
    assert s[i..][..Num(s[i])] == s[i..next] && s[i..][Num(s[i])..] == s[next..];
  }

  method DecodeHidDescriptor(extra: seq<byte>) returns (found: seq<HidDescriptor>, ghost visited: seq<nat>)
    ensures found == Walk(extra) && visited == Visits(extra, 0)
  {
    hide Walk, Visits, ReadHid, Num;
    found, visited := [], [];
    var i := 0;
    assert extra[0..] == extra;
    while i + 2 <= |extra|
      invariant 0 <= i <= |extra|
      invariant found + Walk(extra[i..]) == Walk(extra)
      invariant visited + Visits(extra[i..], i) == Visits(extra, 0)
      decreases |extra| - i
    {
      var len, dtype := Num(extra[i]), extra[i + 1];
      if len == 0 || i + len > |extra| {
        break;
      }
      WalkStep(extra, i);
      visited := visited + [i];
      if dtype == HID_TYPE && len >= 9 {
        found := found + [ReadHid(extra[i..i + len])];
      }
      i := i + len;
    }
    WalkEnds(extra[i..], i);
  }

  lemma WalkEnds(s: seq<byte>, at: nat)
    requires Stops(s)
    ensures Walk(s) == [] && Visits(s, at) == []
  {
  }

  // ---- well-formed descriptors -------------------------------------------

  /** bLength is the descriptor's own length. */
  predicate SelfSized(d: seq<byte>) {
    |d| >= 1 && Num(d[0]) == |d|
  }

  predicate AllSelfSized(ds: seq<seq<byte>>) {
    ds == [] || (SelfSized(ds[0]) && AllSelfSized(ds[1..]))
  }

  function Concat(ds: seq<seq<byte>>): seq<byte> {
    if ds == [] then [] else ds[0] + Concat(ds[1..])
  }

  function AllReported(ds: seq<seq<byte>>): seq<HidDescriptor> {
    if ds == [] then [] else Reported(ds[0]) + AllReported(ds[1..])
  }

  /** The offset at which each descriptor starts. */
  function Boundaries(ds: seq<seq<byte>>, at: nat): seq<nat> {
    if ds == [] then [] else [at] + Boundaries(ds[1..], at + |ds[0]|)
  }

  lemma WalkOver(d: seq<byte>, t: seq<byte>, at: nat)
    requires SelfSized(d) && |d| >= 2
    ensures Walk(d + t) == Reported(d) + Walk(t)
    ensures Visits(d + t, at) == [at] + Visits(t, at + |d|)
  {
    hide Num, Reported;
    var s := d + t;
    assert s[0] == d[0] && s[..|d|] == d && s[|d|..] == t;
  }

  /** A walk over whole descriptors, then bytes that are not one, visits each descriptor exactly
      at its start and reports exactly the HID descriptors, in order. */
  lemma {:induction false} WalkFindsDescriptors(ds: seq<seq<byte>>, tail: seq<byte>, at: nat)
    requires AllSelfSized(ds) && Stops(tail)
    requires forall k :: 0 <= k < |ds| ==> |ds[k]| >= 2
    ensures Walk(Concat(ds) + tail) == AllReported(ds)
    ensures Visits(Concat(ds) + tail, at) == Boundaries(ds, at)
  {
    hide Num, Reported, Walk, Visits;
    if ds == [] {
      assert Concat(ds) + tail == tail;
      WalkEnds(tail, at);
    } else {
      var d, rest := ds[0], ds[1..];
      WalkFindsDescriptors(rest, tail, at + |d|);
      WalkOver(d, Concat(rest) + tail, at);
      assert Concat(ds) + tail == d + (Concat(rest) + tail);
    }
  }

  /** A descriptor that the probe reports: nine bytes or more, of type 0x21. */
  predicate OfHidType(d: seq<byte>) {
    |d| >= 9 && d[1] == 0x21
  }

  /** The fields of a HID descriptor, read at their offsets in section 6.2.1 of HID 1.11. */
  predicate ReadFrom(h: HidDescriptor, d: seq<byte>)
    requires |d| >= 9
  {
    && h.bcdLow == d[2] && h.bcdHigh == d[3] && h.country == d[4] && h.numDesc == d[5] && h.subType == d[6]
    && h.subLength == (d[8] as bv16) * 256 + d[7] as bv16
  }

  /** `found` are the descriptors at `ks`, and `ks` are in order all that are of the HID type. */
  ghost predicate AreTheHidOnes(found: seq<HidDescriptor>, ds: seq<seq<byte>>, ks: seq<nat>) {
    AreRead(found, ds, ks) && AreAllInOrder(ds, ks)
  }

  ghost predicate AreRead(found: seq<HidDescriptor>, ds: seq<seq<byte>>, ks: seq<nat>) {
    && |found| == |ks|
    && forall i :: 0 <= i < |ks| ==> ks[i] < |ds| && OfHidType(ds[ks[i]]) && ReadFrom(found[i], ds[ks[i]])
  }

  ghost predicate AreAllInOrder(ds: seq<seq<byte>>, ks: seq<nat>) {
    && (forall i, j :: 0 <= i < j < |ks| ==> ks[i] < ks[j])
    && (forall k :: 0 <= k < |ds| && OfHidType(ds[k]) ==> k in ks)
  }

  lemma {:induction false} ReportedAreTheHidOnes(ds: seq<seq<byte>>) returns (ks: seq<nat>)
    ensures AreTheHidOnes(AllReported(ds), ds, ks)
  {
    hide OfHidType, ReadFrom, Reported, AreTheHidOnes;
    if ds == [] {
      ks := [];
      NoneReported();
    } else {
      ks := ReportedAreTheHidOnes(ds[1..]);
      HidTypeIsReported(ds[0]);
      assert Reported(ds[0]) == [] ==> Reported(ds[0]) + AllReported(ds[1..]) == AllReported(ds[1..]);
      assert |Reported(ds[0])| == 1 ==> Reported(ds[0]) == [Reported(ds[0])[0]];
      if OfHidType(ds[0]) {
        OneMore(Reported(ds[0])[0], AllReported(ds[1..]), ds, ks);
        ks := [0] + Later(ks);
      } else {
        NoneMore(AllReported(ds[1..]), ds, ks);
        ks := Later(ks);
      }
    }
  }

  lemma NoneReported()
    ensures AreTheHidOnes(AllReported([]), [], [])
  {
  }

  lemma HidTypeIsReported(d: seq<byte>)
    ensures if OfHidType(d) then |Reported(d)| == 1 && ReadFrom(Reported(d)[0], d) else Reported(d) == []
  {
  }

  /** Positions counted with one more element before them. */
  function Later(ks: seq<nat>): (later: seq<nat>)
    ensures |later| == |ks| && forall i :: 0 <= i < |ks| ==> later[i] == ks[i] + 1
  {
    seq(|ks|, i requires 0 <= i < |ks| => ks[i] + 1)
  }

  lemma LaterHas(ks: seq<nat>, k: nat)
    requires k in ks
    ensures k + 1 in Later(ks)
  {
    var i :| 0 <= i < |ks| && ks[i] == k;
    assert Later(ks)[i] == k + 1;
  }

  lemma NoneMore(found: seq<HidDescriptor>, ds: seq<seq<byte>>, rest: seq<nat>)
    requires ds != [] && AreTheHidOnes(found, ds[1..], rest) && !OfHidType(ds[0])
    ensures AreTheHidOnes(found, ds, Later(rest))
  {
    hide OfHidType, ReadFrom;
    LaterRead(found, ds, rest);
    LaterInOrder(ds, rest);
  }

  lemma OneMore(h: HidDescriptor, found: seq<HidDescriptor>, ds: seq<seq<byte>>, rest: seq<nat>)
    requires ds != [] && AreTheHidOnes(found, ds[1..], rest) && OfHidType(ds[0]) && ReadFrom(h, ds[0])
    ensures AreTheHidOnes([h] + found, ds, [0] + Later(rest))
  {
    hide OfHidType, ReadFrom;
    LaterRead(found, ds, rest);
    LaterInOrder(ds, rest);
    HeadRead(h, found, ds, Later(rest));
  }

  lemma LaterRead(found: seq<HidDescriptor>, ds: seq<seq<byte>>, rest: seq<nat>)
    requires ds != [] && AreRead(found, ds[1..], rest)
    ensures AreRead(found, ds, Later(rest))
  {
    hide OfHidType, ReadFrom, Later;
    assert forall i :: 0 <= i < |rest| ==> ds[1..][rest[i]] == ds[Later(rest)[i]];
  }

  lemma HeadRead(h: HidDescriptor, found: seq<HidDescriptor>, ds: seq<seq<byte>>, ks: seq<nat>)
    requires ds != [] && AreRead(found, ds, ks) && OfHidType(ds[0]) && ReadFrom(h, ds[0])
    ensures AreRead([h] + found, ds, [0] + ks)
  {
    hide OfHidType, ReadFrom;
  }

  lemma LaterInOrder(ds: seq<seq<byte>>, rest: seq<nat>)
    requires ds != [] && AreAllInOrder(ds[1..], rest)
    ensures OfHidType(ds[0]) ==> AreAllInOrder(ds, [0] + Later(rest))
    ensures !OfHidType(ds[0]) ==> AreAllInOrder(ds, Later(rest))
  {
    hide OfHidType, Later;
    forall k | 0 < k < |ds| && OfHidType(ds[k])
      ensures k in Later(rest)
    {
      assert ds[k] == ds[1..][k - 1];
      LaterHas(rest, k - 1);
    }
  }

  /** On arbitrary bytes: what is found is, in order and one for one, the descriptors of nine bytes
      or more whose type is 0x21, longer ones included, with every field read from its own offset. */
  lemma WalkReportsExactly(s: seq<byte>) returns (ds: seq<seq<byte>>, tail: seq<byte>, ks: seq<nat>)
    ensures Concat(ds) + tail == s && AllSelfSized(ds)
    ensures |tail| < 2 || tail[0] == 0 || tail[0] as int > |tail|
    ensures AreTheHidOnes(Walk(s), ds, ks)
  {
    hide Walk, Visits, Concat, AllReported, AllSelfSized;
    WalkOnAnyBytes(s, 0);
    ds, tail := Chop(s).0, Chop(s).1;
    ks := ReportedAreTheHidOnes(ds);
  }

  /** Cuts any bytes the way the walk does. */
  function Chop(s: seq<byte>): (seq<seq<byte>>, seq<byte>) {
    if Stops(s) then ([], s)
    else
      var (ds, tail) := Chop(s[Num(s[0])..]);
      ([s[..Num(s[0])]] + ds, tail)
  }

  /** On arbitrary bytes: the input is a run of self-sized descriptors and then bytes that are
      not one, and the walk visits exactly that run and reports exactly its HID descriptors.
      A bLength of 1 makes a run element of one byte, which is never reported. */
  lemma {:induction false} WalkOnAnyBytes(s: seq<byte>, at: nat)
    ensures var (ds, tail) := Chop(s);
            && Concat(ds) + tail == s
            && AllSelfSized(ds) && Stops(tail)
            && Walk(s) == AllReported(ds)
            && Visits(s, at) == Boundaries(ds, at)
  {
    if !Stops(s) {
      hide Chop, Walk, Visits, Concat, AllReported, Reported, Num, Boundaries, AllSelfSized, Stops;
      var n := ChopStep(s, at);
      WalkOnAnyBytes(s[n..], at + n);
      PrependDescriptor(s[..n], Chop(s[n..]).0, Chop(s[n..]).1, at);
      assert s[..n] + s[n..] == s;
    }
  }

  lemma ChopStep(s: seq<byte>, at: nat) returns (n: nat)
    requires !Stops(s)
    ensures 0 < n <= |s| && SelfSized(s[..n])
    ensures Chop(s) == ([s[..n]] + Chop(s[n..]).0, Chop(s[n..]).1)
    ensures Walk(s) == Reported(s[..n]) + Walk(s[n..])
    ensures Visits(s, at) == [at] + Visits(s[n..], at + n)
  {
    hide Reported;
    n := Num(s[0]);
  }

  lemma PrependDescriptor(d: seq<byte>, ds: seq<seq<byte>>, tail: seq<byte>, at: nat)
    ensures Concat([d] + ds) + tail == d + (Concat(ds) + tail)
    ensures AllReported([d] + ds) == Reported(d) + AllReported(ds)
    ensures Boundaries([d] + ds, at) == [at] + Boundaries(ds, at + |d|)
    ensures AllSelfSized([d] + ds) <==> SelfSized(d) && AllSelfSized(ds)
  {
    hide Num, Reported;
    assert ([d] + ds)[1..] == ds;
    assert (d + Concat(ds)) + tail == d + (Concat(ds) + tail);
  }

  // ---- the HID descriptor ------------------------------------------------

  /** A HID descriptor with one subordinate, as section 6.2.1 of HID 1.11 lays it out. */
  function EncodeHid(h: HidDescriptor): seq<byte> {
    [9, HID_TYPE, h.bcdLow, h.bcdHigh, h.country, h.numDesc, h.subType,
     (h.subLength & 0xff) as byte, (h.subLength >> 8) as byte]
  }

  function EncodeAllHid(hs: seq<HidDescriptor>): seq<seq<byte>> {
    if hs == [] then [] else [EncodeHid(hs[0])] + EncodeAllHid(hs[1..])
  }

  lemma HidReadsBack(h: HidDescriptor)
    ensures |EncodeHid(h)| == 9 && SelfSized(EncodeHid(h)) && Reported(EncodeHid(h)) == [h]
  {
    LengthRejoins(h.subLength);
  }

  lemma LengthRejoins(v: bv16)
    ensures U16FromLe((v & 0xff) as byte, (v >> 8) as byte) == v
  {
  }

  lemma {:induction false} AllHidReadBack(hs: seq<HidDescriptor>)
    ensures AllSelfSized(EncodeAllHid(hs)) && AllReported(EncodeAllHid(hs)) == hs
    ensures forall k :: 0 <= k < |EncodeAllHid(hs)| ==> |EncodeAllHid(hs)[k]| >= 2
  {
    hide EncodeHid, Reported, SelfSized;
    if hs != [] {
      AllHidReadBack(hs[1..]);
      HidReadsBack(hs[0]);
      assert EncodeAllHid(hs)[1..] == EncodeAllHid(hs[1..]);
    }
  }

  /** Encoded HID descriptors, one after another, are walked back to themselves, every field in
      its place and the 16-bit lengths exact. */
  lemma HidDescriptorsRoundTrip(hs: seq<HidDescriptor>)
    ensures Walk(Concat(EncodeAllHid(hs))) == hs
  {
    hide Walk, Visits, EncodeAllHid, Concat;
    AllHidReadBack(hs);
    WalkFindsDescriptors(EncodeAllHid(hs), [], 0);
    assert Concat(EncodeAllHid(hs)) + [] == Concat(EncodeAllHid(hs));
  }
}
