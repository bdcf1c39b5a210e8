/** The HID report-descriptor item decoder of the probe (src/bin/probe.rs), against the short-item
    encoding of section 6.2.2.2 of HID 1.11. */
module HidReport {
  import opened Bytes

  /** One decoded item: its prefix byte, its data bytes and their value. */
  datatype Item = Item(prefix: byte, data: seq<byte>, value: bv32)

  function SizeOf(prefix: byte): nat {
    match prefix & 0x03
    case 0 => 0
    case 1 => 1
    case 2 => 2
    case _ => 4
  }

  /** Folds the bytes from the last to the first, shifting what is there up by eight each time. */
  function Fold(data: seq<byte>): bv32 {
    if data == [] then 0 else Join(Fold(data[1..]), data[0])
  }

  function FirstItem(d: seq<byte>): (x: Item)
    requires d != []
    ensures |x.data| < |d|
  {
    var data := d[1..Min(1 + SizeOf(d[0]), |d|)];
    Item(d[0], data, Fold(data))
  }

  function Items(d: seq<byte>): seq<Item> {
    if d == [] then []
    else var x := FirstItem(d); [x] + Items(d[1 + |x.data|..])
  }

  function ItemsFrom(d: seq<byte>, i: nat): seq<Item> {
    if i < |d| then Items(d[i..]) else []
  }

  lemma ItemStep(d: seq<byte>, i: nat)
    requires i < |d|
    ensures var data := d[i + 1..Min(i + 1 + SizeOf(d[i]), |d|)];
            ItemsFrom(d, i) == [Item(d[i], data, Fold(data))] + ItemsFrom(d, i + 1 + SizeOf(d[i]))
  {
    hide Fold, SizeOf, Items;
    var s, next := d[i..], Min(i + 1 + SizeOf(d[i]), |d|);
    ItemsCons(s);
    SliceOfTail(d, i, 1, next - i);
    SliceOfTail(d, i, next - i, |s|);
    if next == |d| {
      NoItems(d[next..]);
    }
  }

  lemma SliceOfTail(d: seq<byte>, i: nat, a: nat, b: nat)
    requires i <= |d| && a <= b <= |d| - i
    ensures d[i..][a..b] == d[i + a..i + b]
    ensures b == |d| - i ==> d[i..][a..] == d[i + a..]
  {
  }

  lemma NoItems(d: seq<byte>)
    requires d == []
    ensures Items(d) == []
  {
  }

  method DecodeReportDescriptor(d: seq<byte>) returns (items: seq<Item>)
    ensures items == Items(d)
  {
    hide Items, ItemsFrom, Fold, SizeOf;
    items := [];
    var i := 0;
    while i < |d|
      invariant 0 <= i && items + ItemsFrom(d, i) == ItemsFrom(d, 0)
    {
      ItemStep(d, i);
      var b := d[i];
      var size := SizeOf(b);
      var data := d[i + 1..Min(i + 1 + size, |d|)];
      items := items + [Item(b, data, Fold(data))];
      i := i + 1 + size;
    }
    ItemsFromEnds(d, i);
  }

  lemma ItemsFromEnds(d: seq<byte>, i: nat)
    ensures ItemsFrom(d, 0) == Items(d)
    ensures i >= |d| ==> ItemsFrom(d, i) == []
  {
    assert d[0..] == d;
  }

  // ---- the items tile the buffer -----------------------------------------

  function Flatten(items: seq<Item>): seq<byte> {
    if items == [] then [] else [items[0].prefix] + items[0].data + Flatten(items[1..])
  }

  predicate Whole(x: Item) {
    |x.data| == SizeOf(x.prefix)
  }

  predicate AllWhole(items: seq<Item>) {
    items == [] || (Whole(items[0]) && AllWhole(items[1..]))
  }

  /** For every buffer: the prefix and data bytes of the items put together are the buffer, only
      the last item can lack data bytes, and each value is the fold of its data. */
  lemma {:induction false} ItemsTile(d: seq<byte>)
    ensures Flatten(Items(d)) == d
    ensures forall k :: 0 <= k < |Items(d)| - 1 ==> Whole(Items(d)[k])
    ensures forall k :: 0 <= k < |Items(d)| ==>
              |Items(d)[k].data| <= SizeOf(Items(d)[k].prefix) && Items(d)[k].value == Fold(Items(d)[k].data)
  {
    hide Fold, SizeOf;
    if d != [] {
      var x := FirstItem(d);
      var rest := d[1 + |x.data|..];
      ItemsTile(rest);
      ItemsCons(d);
      assert Items(d)[1..] == Items(rest);
      CutShortIsLast(d);
    }
  }

  lemma CutShortIsLast(d: seq<byte>)
    requires d != []
    ensures var x := FirstItem(d);
            |x.data| <= SizeOf(x.prefix) && (!Whole(x) ==> d[1 + |x.data|..] == [])
  {
  }

  // ---- short items -------------------------------------------------------

  /** The fields of an item: type, tag, and a value in 0, 1, 2 or 4 bytes. */
  datatype ShortItem = ShortItem(ty: byte, tag: byte, size: nat, value: bv32)

  function Low(v: bv32): byte {
    (v & 0xff) as byte
  }

  function High(v: bv32): bv32 {
    v >> 8
  }

  function Join(v: bv32, x: byte): bv32 {
    (v << 8) | (x as bv32)
  }

  /** The bytes put together, the first of them the lowest. */
  function LittleEndian(a: byte, b: byte, c: byte, d: byte): bv32 {
    (a as bv32) | (b as bv32 << 8) | (c as bv32 << 16) | (d as bv32 << 24)
  }

  /** The value of one, two or four data bytes. */
  lemma ValueIsLittleEndian(a: byte, b: byte, c: byte, d: byte)
    ensures Fold([]) == 0
    ensures Fold([a]) == LittleEndian(a, 0, 0, 0)
    ensures Fold([a, b]) == LittleEndian(a, b, 0, 0)
    ensures Fold([a, b, c, d]) == LittleEndian(a, b, c, d)
  {
    hide Fold, LittleEndian, Join;
    FoldCons([a]);
    FoldCons([a, b]);
    FoldCons([b]);
    FoldCons([a, b, c, d]);
    FoldCons([b, c, d]);
    FoldCons([c, d]);
    FoldCons([d]);
    assert [a][1..] == [b][1..] == [d][1..] == [];
    assert [a, b][1..] == [b] && [c, d][1..] == [d];
    assert [a, b, c, d][1..] == [b, c, d] && [b, c, d][1..] == [c, d];
    JoinsLowest(a, b, c, d);
    JoinsLowest(a, b, 0, 0);
    JoinsLowest(a, 0, 0, 0);
    JoinsZero();
  }

  lemma FoldCons(s: seq<byte>)
    requires s != []
    ensures Fold(s) == Join(Fold(s[1..]), s[0]) && Fold([]) == 0
  {
  }

  lemma JoinsLowest(a: byte, b: byte, c: byte, d: byte)
    ensures Join(Join(Join(Join(0, d), c), b), a) == LittleEndian(a, b, c, d)
  {
  }

  lemma JoinsZero()
    ensures Join(0, 0) == 0
  {
  }

  predicate Fits(v: bv32, n: nat) {
    if n == 0 then v == 0 else Fits(High(v), n - 1)
  }

  /** The fields fit the bits an encoded item has for them. */
  predicate InRange(s: ShortItem) {
    s.ty < 4 && s.tag < 16 && s.size in {0, 1, 2, 4} && Fits(s.value, s.size)
  }

  predicate AllInRange(ss: seq<ShortItem>) {
    ss == [] || (InRange(ss[0]) && AllInRange(ss[1..]))
  }

  function SizeCode(size: nat): byte {
    if size == 0 then 0 else if size == 1 then 1 else if size == 2 then 2 else 3
  }

  function LeBytes(v: bv32, n: nat): (b: seq<byte>)
    ensures |b| == n
  {
    if n == 0 then [] else [Low(v)] + LeBytes(High(v), n - 1)
  }

  function EncodeShort(s: ShortItem): seq<byte> {
    [(s.tag << 4) | (s.ty << 2) | SizeCode(s.size)] + LeBytes(s.value, s.size)
  }

  function EncodeAll(ss: seq<ShortItem>): seq<byte> {
    if ss == [] then [] else EncodeShort(ss[0]) + EncodeAll(ss[1..])
  }

  /** The type, tag and value the decoder reports. */
  function AsShort(x: Item): ShortItem {
    ShortItem((x.prefix >> 2) & 0x03, x.prefix >> 4, |x.data|, x.value)
  }

  function AllShort(items: seq<Item>): seq<ShortItem> {
    if items == [] then [] else [AsShort(items[0])] + AllShort(items[1..])
  }

  lemma JoinSplits(v: bv32)
    ensures Join(High(v), Low(v)) == v
  {
  }

  lemma SplitJoins(v: bv32, x: byte)
    requires v >> 24 == 0
    ensures High(Join(v, x)) == v && Low(Join(v, x)) == x
  {
  }

  lemma {:induction false} FoldInvertsLeBytes(v: bv32, n: nat)
    requires Fits(v, n)
    ensures Fold(LeBytes(v, n)) == v
    decreases n
  {
    hide Low, High, Join;
    if n > 0 {
      FoldInvertsLeBytes(High(v), n - 1);
      assert LeBytes(v, n)[1..] == LeBytes(High(v), n - 1);
      JoinSplits(v);
    }
  }

  lemma {:induction false} LeBytesInvertsFold(data: seq<byte>)
    requires |data| <= 4
    ensures Fits(Fold(data), |data|) && LeBytes(Fold(data), |data|) == data
  {
    hide Low, High, Join;
    if data != [] {
      LeBytesInvertsFold(data[1..]);
      SmallFits(Fold(data[1..]), |data| - 1);
      SplitJoins(Fold(data[1..]), data[0]);
    }
  }

  lemma SmallFits(v: bv32, n: nat)
    requires n <= 3 && Fits(v, n)
    ensures v >> 24 == 0
  {
    match n
    case 0 =>
    case 1 => assert Fits(High(v), 0);
    case 2 => assert Fits(High(v), 1) && Fits(High(High(v)), 0);
    case 3 => assert Fits(High(v), 2) && Fits(High(High(v)), 1) && Fits(High(High(High(v))), 0);
  }

  lemma ShortPrefix(s: ShortItem)
    requires InRange(s)
    ensures var b := EncodeShort(s)[0];
            (b >> 2) & 0x03 == s.ty && b >> 4 == s.tag && SizeOf(b) == s.size
  {
  }

  lemma EncodedItemFirst(s: ShortItem, rest: seq<byte>)
    requires InRange(s)
    ensures AllShort(Items(EncodeShort(s) + rest)) == [s] + AllShort(Items(rest))
  {
    hide Fold, LeBytes, SizeCode, Fits;
    var d := EncodeShort(s) + rest;
    ShortPrefix(s);
    FoldInvertsLeBytes(s.value, s.size);
    var x := FirstItem(d);
    assert x.data == LeBytes(s.value, s.size);
    assert d[1 + |x.data|..] == rest;
    assert Items(d)[1..] == Items(rest);
  }

  lemma NothingEncoded()
    ensures AllShort(Items(EncodeAll([]))) == []
  {
  }

  /** Decoding any encoded sequence of items gives that sequence back. */
  lemma {:induction false} ShortItemsRoundTrip(ss: seq<ShortItem>)
    requires AllInRange(ss)
    ensures AllShort(Items(EncodeAll(ss))) == ss
  {
    hide EncodeShort, Items, AsShort, InRange, AllShort;
    if ss == [] {
      NothingEncoded();
    } else {
      ShortItemsRoundTrip(ss[1..]);
      EncodedItemFirst(ss[0], EncodeAll(ss[1..]));
    }
  }

  lemma WholeItemReencodes(x: Item)
    requires Whole(x) && x.value == Fold(x.data)
    ensures InRange(AsShort(x)) && EncodeShort(AsShort(x)) == [x.prefix] + x.data
  {
    LeBytesInvertsFold(x.data);
    var b := x.prefix;
    assert ((b >> 4) << 4) | (((b >> 2) & 0x03) << 2) | (b & 0x03) == b;
  }

  /** Conversely, every buffer whose last item is not cut short is the encoding of what it
      decodes to; with the round trip, decoding is a bijection onto sequences of items in range. */
  lemma {:induction false} WholeBuffersReencode(d: seq<byte>)
    requires AllWhole(Items(d))
    ensures EncodeAll(AllShort(Items(d))) == d && AllInRange(AllShort(Items(d)))
  {
    if d != [] {
      var x := FirstItem(d);
      var rest := d[1 + |x.data|..];
      ItemsCons(d);
      PrependItem(x, Items(rest));
      WholeBuffersReencode(rest);
    }
  }

  lemma ItemsCons(d: seq<byte>)
    requires d != []
    ensures var x := FirstItem(d);
            var rest := d[1 + |x.data|..];
            Items(d) == [x] + Items(rest) && d == [x.prefix] + x.data + rest && x.value == Fold(x.data)
  {
    hide Fold, SizeOf;
  }

  lemma PrependItem(x: Item, items: seq<Item>)
    requires x.value == Fold(x.data)
    ensures AllWhole([x] + items) <==> Whole(x) && AllWhole(items)
    ensures Whole(x) ==>
              var ss := AllShort([x] + items);
              && EncodeAll(ss) == [x.prefix] + x.data + EncodeAll(AllShort(items))
              && (AllInRange(ss) <==> AllInRange(AllShort(items)))
  {
    hide EncodeShort, AsShort, InRange, SizeOf, Fold;
    assert ([x] + items)[1..] == items;
    if Whole(x) {
      WholeItemReencodes(x);
      assert ([AsShort(x)] + AllShort(items))[1..] == AllShort(items);
    }
  }

  // ---- long items --------------------------------------------------------

  /** Items as the standard defines them: short items, whose prefix is never 0xfe, and long items
      (section 6.2.2.3 of HID 1.11), which start with 0xfe, their data size and a tag. */
  datatype StdItem = Short(item: ShortItem) | Long(size: byte, tag: byte, data: seq<byte>)

  const LONG_PREFIX: byte := 0xfe

  predicate ValidStd(x: StdItem) {
    match x
    case Short(s) => InRange(s) && EncodeShort(s)[0] != LONG_PREFIX
    case Long(size, _, data) => |data| == size as int
  }

  predicate AllStd(xs: seq<StdItem>) {
    xs == [] || (ValidStd(xs[0]) && AllStd(xs[1..]))
  }

  function EncodeStd(x: StdItem): (b: seq<byte>)
    ensures b != []
  {
    match x
    case Short(s) => EncodeShort(s)
    case Long(size, tag, data) => [LONG_PREFIX, size, tag] + data
  }

  /** The bytes of each item of a standard sequence. */
  function StdPieces(xs: seq<StdItem>): seq<seq<byte>> {
    if xs == [] then [] else [EncodeStd(xs[0])] + StdPieces(xs[1..])
  }

  function Joined(pieces: seq<seq<byte>>): seq<byte> {
    if pieces == [] then [] else pieces[0] + Joined(pieces[1..])
  }

  /** The bytes of each item the decoder finds. */
  function Pieces(items: seq<Item>): seq<seq<byte>> {
    if items == [] then [] else [[items[0].prefix] + items[0].data] + Pieces(items[1..])
  }

  /** Every long item is one without data. */
  predicate LongsAreEmpty(xs: seq<StdItem>) {
    xs == [] || ((xs[0].Long? ==> xs[0].data == []) && LongsAreEmpty(xs[1..]))
  }

  predicate AllShortStd(xs: seq<StdItem>) {
    xs == [] || (xs[0].Short? && AllShortStd(xs[1..]))
  }

  /** The first piece found in an encoding is the first item's whole encoding, except that of a
      long item the decoder takes three bytes. */
  lemma FirstPiece(x: StdItem, rest: seq<byte>)
    requires ValidStd(x)
    ensures var d := EncodeStd(x) + rest;
            var piece := [FirstItem(d).prefix] + FirstItem(d).data;
            && piece == (if x.Short? then EncodeStd(x) else EncodeStd(x)[..3])
            && (FirstItem(d).prefix == LONG_PREFIX <==> x.Long?)
  {
    hide Fold, LeBytes, SizeCode, Fits, InRange;
    var d := EncodeStd(x) + rest;
    match x
    case Short(s) =>
      ShortPrefix(s);
      assert FirstItem(d).data == EncodeShort(s)[1..];
    case Long(size, tag, data) =>
      assert SizeOf(d[0]) == 2 && d[1..3] == [size, tag];
  }

  lemma PiecesCons(d: seq<byte>)
    requires d != []
    ensures var x := FirstItem(d);
            Pieces(Items(d)) == [[x.prefix] + x.data] + Pieces(Items(d[1 + |x.data|..]))
  {
    hide Items, FirstItem;
    ItemsCons(d);
    var x := FirstItem(d);
    assert Items(d)[1..] == Items(d[1 + |x.data|..]);
  }

  /** For every sequence of standard items, long ones included: the decoder cuts its encoding where
      the standard does if and only if no long item carries data. */
  lemma {:induction false} DecoderCutsAsStandardIff(xs: seq<StdItem>)
    requires AllStd(xs)
    ensures Pieces(Items(Joined(StdPieces(xs)))) == StdPieces(xs) <==> LongsAreEmpty(xs)
  {
    hide Items, EncodeStd, FirstItem, ValidStd;
    if xs == [] {
      NothingCut();
    } else {
      var x, rest := xs[0], Joined(StdPieces(xs[1..]));
      var d := EncodeStd(x) + rest;
      StdCons(xs);
      FirstPiece(x, rest);
      PiecesCons(d);
      var piece := [FirstItem(d).prefix] + FirstItem(d).data;
      EmptyLongIsThree(x);
      if piece == EncodeStd(x) {
        assert d[|piece|..] == rest;
        DecoderCutsAsStandardIff(xs[1..]);
        SameHead(piece, Pieces(Items(rest)), StdPieces(xs[1..]));
      } else {
        assert Pieces(Items(d))[0] != StdPieces(xs)[0];
      }
    }
  }

  lemma NothingCut()
    ensures Pieces(Items(Joined(StdPieces([])))) == []
  {
  }

  lemma StdCons(xs: seq<StdItem>)
    requires xs != []
    ensures StdPieces(xs) == [EncodeStd(xs[0])] + StdPieces(xs[1..])
    ensures Joined(StdPieces(xs)) == EncodeStd(xs[0]) + Joined(StdPieces(xs[1..]))
  {
    assert StdPieces(xs)[1..] == StdPieces(xs[1..]);
  }

  lemma EmptyLongIsThree(x: StdItem)
    requires ValidStd(x)
    ensures x.Long? ==> |EncodeStd(x)| >= 3 && (EncodeStd(x) == EncodeStd(x)[..3] <==> x.data == [])
  {
  }

  lemma SameHead(p: seq<byte>, a: seq<seq<byte>>, b: seq<seq<byte>>)
    ensures [p] + a == [p] + b <==> a == b
  {
    assert ([p] + a)[1..] == a && ([p] + b)[1..] == b;
  }

  /** The values the standard gives the short items. */
  function Values(xs: seq<StdItem>): seq<ShortItem>
    requires AllShortStd(xs)
  {
    if xs == [] then [] else [xs[0].item] + Values(xs[1..])
  }

  predicate SeesLongPrefix(items: seq<Item>) {
    items != [] && (items[0].prefix == LONG_PREFIX || SeesLongPrefix(items[1..]))
  }

  /** Whether there was a long item can be read off what the decoder found: some item of its has
      the long prefix if and only if some standard item is long. */
  lemma {:induction false} LongItemsAreSeen(xs: seq<StdItem>)
    requires AllStd(xs)
    ensures SeesLongPrefix(Items(Joined(StdPieces(xs)))) <==> !AllShortStd(xs)
  {
    hide Items, EncodeStd, FirstItem, ValidStd;
    if xs == [] {
      NothingCut();
    } else {
      var x, rest := xs[0], Joined(StdPieces(xs[1..]));
      var d := EncodeStd(x) + rest;
      StdCons(xs);
      FirstPiece(x, rest);
      ItemsCons(d);
      var first := FirstItem(d);
      assert Items(d)[0] == first && Items(d)[1..] == Items(d[1 + |first.data|..]);
      if x.Short? {
        assert |EncodeStd(x)| == 1 + |first.data|;
        assert d[1 + |first.data|..] == rest;
        LongItemsAreSeen(xs[1..]);
      }
    }
  }

  /** Without long items, what the decoder finds is exactly the standard's items. */
  lemma {:induction false} ShortStandardItemsDecode(xs: seq<StdItem>)
    requires AllStd(xs) && AllShortStd(xs)
    ensures AllShort(Items(Joined(StdPieces(xs)))) == Values(xs)
  {
    hide Items, EncodeShort, AllShort, InRange;
    if xs == [] {
      NothingEncoded();
      assert Joined(StdPieces(xs)) == EncodeAll([]) == [];
    } else {
      StdCons(xs);
      ShortStandardItemsDecode(xs[1..]);
      EncodedItemFirst(xs[0].item, Joined(StdPieces(xs[1..])));
    }
  }
}
