/** Bit windows in the byte images of a cif card (io/cif/cif.c). Bytes and words are least significant bit first. */
module Cif {
  import opened Numerals
  import opened Words
  import opened Wrappers

  type Byte8 = b: seq<bool> | |b| == 8 witness Copies(8, false)

  function AndByte(a: Byte8, b: Byte8): Byte8 {
    seq(8, k requires 0 <= k < 8 => a[k] && b[k])
  }

  function BlendByte(a: Byte8, b: Byte8, m: Byte8): Byte8 {
    seq(8, k requires 0 <= k < 8 => if m[k] then b[k] else a[k])
  }

  /** The i-th byte of a word. */
  function ByteOf(w: Word, i: nat): Byte8
    requires i < 4
  {
    w[8 * i..8 * i + 8]
  }

  // ----- addresses -----

  /** `masks` has one mask for each byte that the point touches. */
  datatype Addr = Addr(offset: nat, shift: nat, masks: seq<Byte8>)

  /** (~(0xFF << len)) << shift in one byte. For length 32 C leaves the shift undefined, and `u` is what the compiler makes of it. */
  function FirstMask(len: nat, shift: nat, u: Byte8): Byte8 {
    if len == 32 then u else seq(8, k requires 0 <= k < 8 => k >= shift && !(len <= k - shift < len + 8))
  }

  /** ~(0xFF << r), or all ones when the point ends at a byte boundary. */
  function LastMask(r: nat): Byte8 {
    seq(8, k requires 0 <= k < 8 => r == 0 || k < r)
  }

  /** A point in a single byte gets the last-byte mask, which replaces the first. */
  function MaskAt(len: nat, shift: nat, u: Byte8, num: nat, i: nat): Byte8 {
    if i + 1 == num then LastMask((len + shift) % 8) else if i == 0 then FirstMask(len, shift, u) else Copies(8, true)
  }

  function Masks(len: nat, shift: nat, u: Byte8): (m: seq<Byte8>)
    requires 1 <= len <= 32 && shift < 8
    ensures |m| == 1 + (len - 1 + shift) / 8 <= 5
    ensures 8 * (|m| - 1) < len + shift <= 8 * |m|
  {
    var num := 1 + (len - 1 + shift) / 8;
    seq(num, i requires 0 <= i < num => MaskAt(len, shift, u, num, i))
  }

  /** <ofs>[.<bit>], within a process image of `image` bytes. */
  function ParseAddr(text: string, len: nat, image: nat, u: Byte8, num: Numbers): (r: Option<Addr>)
    requires 1 <= len <= 32 && 0 < image < 0x1_0000
    ensures r.Some? ==> r.value.shift < 8 && r.value.masks == Masks(len, r.value.shift, u) && r.value.offset + |r.value.masks| <= image
  {
    if text == "" then None
    else
      var d := Dot(text);
      var bit := if d < |text| then num.unsigned(text[d + 1..]) else Some(0);
      var ofs := num.unsigned(text[..d]);
      if bit.None? || bit.value > 7 || ofs.None? || ofs.value >= image || ofs.value + (len - 1 + bit.value) / 8 > image - 1 then None
      else Some(Addr(ofs.value, bit.value, Masks(len, bit.value, u)))
  }

  /** The text is an offset, or an offset and a bit with a dot between them. */
  ghost predicate Denotes(text: string, ofs: nat, bit: nat, num: Numbers) {
    || (text != "" && '.' !in text && bit == 0 && num.unsigned(text) == Some(ofs))
    || exists o: string, b: string :: WithBit(text, o, b) && NumbersOf(o, b, ofs, bit, num)
  }

  predicate WithBit(text: string, o: string, b: string) {
    text == o + "." + b && '.' !in o
  }

  predicate NumbersOf(o: string, b: string, ofs: nat, bit: nat, num: Numbers) {
    num.unsigned(o) == Some(ofs) && num.unsigned(b) == Some(bit) && bit <= 7
  }

  ghost predicate IsAddress(r: Option<Addr>, ofs: nat, bit: nat) {
    r.Some? && r.value.offset == ofs && r.value.shift == bit
  }

  lemma DotText(text: string, o: string, b: string)
    requires WithBit(text, o, b)
    ensures Dot(text) == |o| < |text| && text[..|o|] == o && text[|o| + 1..] == b
  {
    assert text[|o|] == '.' && text[..|o|] == o;
    DotAt(text, |o|);
  }

  lemma AddressWithBit(text: string, o: string, b: string, len: nat, image: nat, u: Byte8, num: Numbers, ofs: nat, bit: nat)
    requires 1 <= len <= 32 && 0 < image < 0x1_0000 && WithBit(text, o, b)
    ensures IsAddress(ParseAddr(text, len, image, u, num), ofs, bit)
      <==> NumbersOf(o, b, ofs, bit, num) && 8 * ofs + bit + len <= 8 * image
  {
    DotText(text, o, b);
  }

  lemma AddressWithoutBit(text: string, len: nat, image: nat, u: Byte8, num: Numbers, ofs: nat, bit: nat)
    requires 1 <= len <= 32 && 0 < image < 0x1_0000 && '.' !in text
    ensures IsAddress(ParseAddr(text, len, image, u, num), ofs, bit)
      <==> text != "" && bit == 0 && num.unsigned(text) == Some(ofs) && 8 * ofs + bit + len <= 8 * image
  {
    assert Dot(text) == |text| && text[..|text|] == text;
  }

  /** A text is accepted exactly when it denotes a byte and a bit from which all bits of the point are in the process image. */
  lemma AddressMeaning(text: string, len: nat, image: nat, u: Byte8, num: Numbers, ofs: nat, bit: nat)
    requires 1 <= len <= 32 && 0 < image < 0x1_0000
    ensures IsAddress(ParseAddr(text, len, image, u, num), ofs, bit)
      <==> Denotes(text, ofs, bit, num) && 8 * ofs + bit + len <= 8 * image
  {
    var d := Dot(text);
    forall o, b | WithBit(text, o, b) ensures d == |o| < |text| && o == text[..d] && b == text[d + 1..] {
      DotText(text, o, b);
    }
    if d < |text| {
      assert WithBit(text, text[..d], text[d + 1..]);
      AddressWithBit(text, text[..d], text[d + 1..], len, image, u, num, ofs, bit);
      assert text[d] == '.';
    } else {
      assert text[..d] == text;
      AddressWithoutBit(text, len, image, u, num, ofs, bit);
    }
  }

  /** Bit b of byte i belongs to the point. */
  predicate InWindow(len: nat, shift: nat, i: nat, b: nat) {
    shift <= 8 * i + b < shift + len
  }

  /** The masks select the window exactly, but a single byte's mask also has the bits below it, and length 32 leaves the first byte open. */
  lemma MasksSelectWindow(len: nat, shift: nat, u: Byte8, i: nat, b: nat)
    requires 1 <= len <= 32 && shift < 8 && i < |Masks(len, shift, u)| && b < 8
    ensures Masks(len, shift, u)[i][b] <==>
      if len == 32 && i == 0 then u[b] else InWindow(len, shift, i, b) || (|Masks(len, shift, u)| == 1 && b < shift)
  {}

  // ----- the part of the image that is transferred -----

  /** The configured bytes of one direction: nothing yet when the size is 0. */
  datatype Hull = Hull(ofs: nat, size: nat)

  function Extend(h: Hull, offset: nat, bytes: nat): Hull {
    var h1 := if h.size == 0 then Hull(offset, bytes) else h;
    var h2 := if offset < h1.ofs then Hull(offset, h1.size + (h1.ofs - offset)) else h1;
    if offset + bytes > h2.ofs + h2.size then Hull(h2.ofs, offset + bytes - h2.ofs) else h2
  }

  function HullOf(used: seq<(nat, nat)>): Hull {
    if used == [] then Hull(0, 0) else Extend(HullOf(used[..|used| - 1]), used[|used| - 1].0, used[|used| - 1].1)
  }

  ghost predicate ExactHull(h: Hull, used: seq<(nat, nat)>) {
    && h.size > 0
    && (forall u :: u in used ==> h.ofs <= u.0 && u.0 + u.1 <= h.ofs + h.size)
    && (exists u :: u in used && u.0 == h.ofs)
    && (exists u :: u in used && u.0 + u.1 == h.ofs + h.size)
  }

  /** In whatever order points are configured, the transferred range is the exact hull of their bytes. */
  lemma {:induction false} HullIsExact(used: seq<(nat, nat)>)
    requires used != [] && forall u :: u in used ==> u.1 > 0
    ensures ExactHull(HullOf(used), used)
    decreases |used|
  {
    var k := |used| - 1;
    var last := used[k];
    assert last in used;
    assert used == used[..k] + [last];
    if k == 0 {
    } else {
      HullIsExact(used[..k]);
      var h := HullOf(used[..k]);
      var u :| u in used[..k] && u.0 == h.ofs;
      var v :| v in used[..k] && v.0 + v.1 == h.ofs + h.size;
      assert u in used && v in used;
    }
  }

  class Direction {
    var ofs: nat
    var size: nat

    constructor ()
      ensures Hull(ofs, size) == HullOf([])
    {
      ofs, size := 0, 0;
    }

    method Include(a: Addr, ghost used: seq<(nat, nat)>)
      requires Hull(ofs, size) == HullOf(used)
      modifies this
      ensures Hull(ofs, size) == HullOf(used + [(a.offset, |a.masks|)])
    {
      var bytes := |a.masks|;
      if size == 0 {
        size := bytes;
        ofs := a.offset;
      }
      if a.offset < ofs {
        size := size + (ofs - a.offset);
        ofs := a.offset;
      }
      if a.offset + bytes > ofs + size {
        size := a.offset + bytes - ofs;
      }
      assert (used + [(a.offset, |a.masks|)])[..|used|] == used;
    }
  }

  function UsedBy(addrs: seq<Addr>): seq<(nat, nat)> {
    seq(|addrs|, k requires 0 <= k < |addrs| => (addrs[k].offset, |addrs[k].masks|))
  }

  /** What the transfer calls need of an address: its bytes lie inside the allocated part. */
  ghost predicate InBounds(a: Addr, base: nat, size: nat) {
    && a.shift < 8 && 1 <= |a.masks| <= 5
    && base <= a.offset && a.offset - base + |a.masks| <= size
  }

  /** Accepted addresses are inside the transferred range, and that range inside the process image. */
  lemma ConfiguredInBounds(addrs: seq<Addr>, image: nat, a: Addr)
    requires a in addrs
    requires forall b :: b in addrs ==> b.shift < 8 && 1 <= |b.masks| <= 5 && b.offset + |b.masks| <= image
    ensures var h := HullOf(UsedBy(addrs)); InBounds(a, h.ofs, h.size) && h.ofs + h.size <= image
  {
    var used := UsedBy(addrs);
    forall u | u in used ensures u.1 > 0 && u.0 + u.1 <= image {
      var k :| 0 <= k < |used| && used[k] == u;
      assert addrs[k] in addrs;
    }
    var k :| 0 <= k < |addrs| && addrs[k] == a;
    assert used[k] in used;
    HullIsExact(used);
  }

  ghost predicate LengthsFit(points: seq<(string, nat)>) {
    forall k :: 0 <= k < |points| ==> 1 <= points[k].1 <= 32
  }

  /** The addresses that one direction's points are given; a point whose address fails is left out. */
  function Accepted(points: seq<(string, nat)>, image: nat, u: Byte8, num: Numbers): (r: seq<Addr>)
    requires 0 < image < 0x1_0000 && LengthsFit(points)
    ensures forall a :: a in r ==> a.shift < 8 && 1 <= |a.masks| <= 5 && a.offset + |a.masks| <= image
  {
    if points == [] then []
    else
      var k := |points| - 1;
      var a := ParseAddr(points[k].0, points[k].1, image, u, num);
      Accepted(points[..k], image, u, num) + (if a.Some? then [a.value] else [])
  }

  lemma AcceptedStep(points: seq<(string, nat)>, k: nat, image: nat, u: Byte8, num: Numbers)
    requires 0 < image < 0x1_0000 && k < |points| && LengthsFit(points)
    ensures var a := ParseAddr(points[k].0, points[k].1, image, u, num);
      Accepted(points[..k + 1], image, u, num) == Accepted(points[..k], image, u, num) + (if a.Some? then [a.value] else [])
  {
    assert points[..k + 1][..k] == points[..k];
  }

  /** No address that can be accepted is left out. */
  lemma {:induction false} AcceptedAre(points: seq<(string, nat)>, image: nat, u: Byte8, num: Numbers, a: Addr)
    requires 0 < image < 0x1_0000 && LengthsFit(points)
    ensures a in Accepted(points, image, u, num)
      <==> exists k :: 0 <= k < |points| && ParseAddr(points[k].0, points[k].1, image, u, num) == Some(a)
    decreases |points|
  {
    if points == [] {
    } else {
      AcceptedAre(points[..|points| - 1], image, u, num, a);
    }
  }

  lemma UsedByAppend(addrs: seq<Addr>, a: Addr)
    ensures UsedBy(addrs + [a]) == UsedBy(addrs) + [(a.offset, |a.masks|)]
  {}

  /** One call of the parser: an accepted address extends the transferred range. */
  method ParseOne(text: string, len: nat, image: nat, u: Byte8, num: Numbers, d: Direction, ghost addrs: seq<Addr>)
    returns (r: Option<Addr>)
    requires 1 <= len <= 32 && 0 < image < 0x1_0000 && Hull(d.ofs, d.size) == HullOf(UsedBy(addrs))
    modifies d
    ensures r == ParseAddr(text, len, image, u, num)
    ensures Hull(d.ofs, d.size) == HullOf(UsedBy(if r.Some? then addrs + [r.value] else addrs))
  {
    r := ParseAddr(text, len, image, u, num);
    if r.Some? {
      UsedByAppend(addrs, r.value);
      d.Include(r.value, UsedBy(addrs));
    }
  }

  method ParseAll(points: seq<(string, nat)>, image: nat, u: Byte8, num: Numbers) returns (addrs: seq<Addr>, d: Direction)
    requires 0 < image < 0x1_0000 && LengthsFit(points)
    ensures addrs == Accepted(points, image, u, num) && fresh(d) && Hull(d.ofs, d.size) == HullOf(UsedBy(addrs))
  {
    addrs := [];
    d := new Direction();
    assert UsedBy([]) == [];
    var i := 0;
    while i < |points|
      invariant 0 <= i <= |points| && fresh(d)
      invariant addrs == Accepted(points[..i], image, u, num) && Hull(d.ofs, d.size) == HullOf(UsedBy(addrs))
    {
      AcceptedStep(points, i, image, u, num);
      var r := ParseOne(points[i].0, points[i].1, image, u, num, d, addrs);
      if r.Some? {
        addrs := addrs + [r.value];
      }
      i := i + 1;
    }
    assert points[..i] == points;
  }

  /** Parsing the addresses of one direction and allocating their hull: every later HwRead and HwWrite of a configured point is in bounds. */
  method Configure(points: seq<(string, nat)>, image: nat, u: Byte8, num: Numbers)
    returns (addrs: seq<Addr>, d: Direction, map8: array<Byte8>)
    requires 0 < image < 0x1_0000 && LengthsFit(points)
    ensures addrs == Accepted(points, image, u, num)
    ensures map8.Length == d.size && forall a :: a in addrs ==> InBounds(a, d.ofs, map8.Length)
    ensures d.ofs + d.size <= image
  {
    addrs, d := ParseAll(points, image, u, num);
    forall a | a in addrs ensures InBounds(a, d.ofs, d.size) && d.ofs + d.size <= image {
      ConfiguredInBounds(addrs, image, a);
    }
    if addrs != [] {
      assert addrs[0] in addrs;
    }
    map8 := new Byte8[d.size](_ => Copies(8, false));
  }

  // ----- reading and writing a point -----

  /** The word shifted down, with the fifth byte or-ed into its top byte. */
  function Assembled(b0: Byte8, b1: Byte8, b2: Byte8, b3: Byte8, b4: Byte8, shift: nat): Word
    requires shift < 8
  {
    var v := Shr(b0 + b1 + b2 + b3, shift);
    v[..24] + seq(8, k requires 0 <= k < 8 => v[24 + k] || (k >= 8 - shift && b4[k - (8 - shift)]))
  }

  /** Bytes above the point keep what the caller's variable held. */
  function ByteRead(image: seq<Byte8>, abs: nat, masks: seq<Byte8>, before: Word, i: nat): Byte8
    requires i < 5 && abs + |masks| <= |image|
  {
    if i < |masks| then AndByte(image[abs + i], masks[i]) else if i < 4 then ByteOf(before, i) else Copies(8, false)
  }

  function ReadValue(image: seq<Byte8>, abs: nat, masks: seq<Byte8>, before: Word, shift: nat): Word
    requires shift < 8 && abs + |masks| <= |image|
  {
    Assembled(ByteRead(image, abs, masks, before, 0), ByteRead(image, abs, masks, before, 1), ByteRead(image, abs, masks, before, 2),
              ByteRead(image, abs, masks, before, 3), ByteRead(image, abs, masks, before, 4), shift)
  }

  /** The mask lets this bit of the point through: always, but for the first byte of a 32-bit point. */
  predicate Reached(len: nat, u: Byte8, i: nat, b: nat)
    requires b < 8
  {
    len < 32 || i > 0 || u[b]
  }

  lemma ReadBit(image: seq<Byte8>, abs: nat, before: Word, len: nat, shift: nat, u: Byte8, i: nat, b: nat)
    requires 1 <= len <= 32 && shift < 8 && abs + |Masks(len, shift, u)| <= |image|
    requires i < |Masks(len, shift, u)| && b < 8 && InWindow(len, shift, i, b)
    ensures ReadValue(image, abs, Masks(len, shift, u), before, shift)[8 * i + b - shift] == (Reached(len, u, i, b) && image[abs + i][b])
  {}

  lemma AssembledBit(b0: Byte8, b1: Byte8, b2: Byte8, b3: Byte8, b4: Byte8, shift: nat, k: nat)
    requires shift < 8 && k < 32
    ensures Assembled(b0, b1, b2, b3, b4, shift)[k]
      == if k + shift < 32 then (b0 + b1 + b2 + b3)[k + shift] else b4[k + shift - 32]
  {}

  /** Above the point, the bits of its last byte are read as 0, and bytes that it does not touch as the caller's variable had them. */
  lemma ReadAbove(image: seq<Byte8>, abs: nat, before: Word, len: nat, shift: nat, u: Byte8, k: nat)
    requires 1 <= len <= k < 32 && shift < 8 && abs + |Masks(len, shift, u)| <= |image|
    ensures ReadValue(image, abs, Masks(len, shift, u), before, shift)[k]
      == (k + shift >= 8 * |Masks(len, shift, u)| && k + shift < 32 && before[k + shift])
  {
    var m := Masks(len, shift, u);
    var i, b := (k + shift) / 8, (k + shift) % 8;
    AssembledBit(ByteRead(image, abs, m, before, 0), ByteRead(image, abs, m, before, 1), ByteRead(image, abs, m, before, 2),
                 ByteRead(image, abs, m, before, 3), ByteRead(image, abs, m, before, 4), shift, k);
    if i < |m| {
      MasksSelectWindow(len, shift, u, i, b);
      assert !ByteRead(image, abs, m, before, i)[b];
    } else if i < 4 {
      assert ByteRead(image, abs, m, before, i)[b] == before[k + shift];
    }
  }

  /** The bits of the window arrive in place; `value` is meaningful modulo 2^len only. */
  method HwRead(image: array<Byte8>, base: nat, a: Addr, before: Word) returns (value: Word)
    requires InBounds(a, base, image.Length)
    ensures value == ReadValue(image[..], a.offset - base, a.masks, before, a.shift)
  {
    var abs := a.offset - base;
    var num := |a.masks|;
    var b0 := AndByte(image[abs], a.masks[0]);
    var b1 := if num >= 2 then AndByte(image[abs + 1], a.masks[1]) else ByteOf(before, 1);
    var b2 := if num >= 3 then AndByte(image[abs + 2], a.masks[2]) else ByteOf(before, 2);
    var b3 := if num >= 4 then AndByte(image[abs + 3], a.masks[3]) else ByteOf(before, 3);
    var b4 := if num == 5 then AndByte(image[abs + 4], a.masks[4]) else Copies(8, false);
    value := Assembled(b0, b1, b2, b3, b4, a.shift);
  }

  /** A bit below the point that a write clears: in a single byte, or where the first mask of a 32-bit point has it. */
  predicate Cleared(len: nat, shift: nat, u: Byte8, num: nat, i: nat, b: nat)
    requires b < 8
  {
    i == 0 && b < shift && (num == 1 || (len == 32 && u[b]))
  }

  predicate WrittenBitAs(old1: bool, new1: bool, value: Word, len: nat, shift: nat, u: Byte8, num: nat, i: nat, b: nat)
    requires b < 8
  {
    new1 == if InWindow(len, shift, i, b) && Reached(len, u, i, b) then 8 * i + b - shift < 32 && value[8 * i + b - shift]
            else if Cleared(len, shift, u, num, i, b) then false else old1
  }

  ghost predicate WrittenByte(old8: Byte8, new8: Byte8, value: Word, len: nat, shift: nat, u: Byte8, num: nat, i: nat) {
    forall b: nat :: b < 8 ==> WrittenBitAs(old8[b], new8[b], value, len, shift, u, num, i, b)
  }

  /** The byte that the code stores at index i. */
  function Stored(old8: Byte8, value: Word, a: Addr, i: nat): Byte8
    requires i < |a.masks| <= 5 && a.shift < 8
  {
    if i == 4 then BlendByte(old8, seq(8, k requires 0 <= k < 8 => k < a.shift && value[32 - a.shift + k]), a.masks[4])
    else BlendByte(old8, ByteOf(Shl(value, a.shift), i), a.masks[i])
  }

  lemma StoredIsWindow(old8: Byte8, value: Word, a: Addr, len: nat, u: Byte8, i: nat)
    requires 1 <= len <= 32 && a.shift < 8 && a.masks == Masks(len, a.shift, u) && i < |a.masks|
    ensures WrittenByte(old8, Stored(old8, value, a, i), value, len, a.shift, u, |a.masks|, i)
  {
    forall b: nat | b < 8
      ensures WrittenBitAs(old8[b], Stored(old8, value, a, i)[b], value, len, a.shift, u, |a.masks|, i, b)
    {
      MasksSelectWindow(len, a.shift, u, i, b);
      if i < 4 {
        assert ByteOf(Shl(value, a.shift), i)[b] == Shl(value, a.shift)[8 * i + b];
      }
    }
  }

  ghost predicate WrittenAt(was: seq<Byte8>, now: seq<Byte8>, abs: nat, value: Word, len: nat, u: Byte8, a: Addr, i: nat)
    requires abs + i < |was| == |now|
  {
    WrittenByte(was[abs + i], now[abs + i], value, len, a.shift, u, |a.masks|, i)
  }

  ghost predicate AllWritten(was: seq<Byte8>, now: seq<Byte8>, abs: nat, value: Word, len: nat, u: Byte8, a: Addr)
    requires abs + |a.masks| <= |was| == |now|
  {
    forall i: nat :: i < |a.masks| ==> WrittenAt(was, now, abs, value, len, u, a, i)
  }

  /** The image with the last `n` bytes of the point stored, last byte first. */
  ghost function StoredFrom(was: seq<Byte8>, abs: nat, value: Word, a: Addr, n: nat): (r: seq<Byte8>)
    requires n <= |a.masks| <= 5 && a.shift < 8 && abs + |a.masks| <= |was|
    ensures |r| == |was|
  {
    seq(|was|, j requires 0 <= j < |was| =>
      if abs + |a.masks| - n <= j < abs + |a.masks| then Stored(was[j], value, a, j - abs) else was[j])
  }

  lemma StoredFromNone(was: seq<Byte8>, abs: nat, value: Word, a: Addr)
    requires |a.masks| <= 5 && a.shift < 8 && abs + |a.masks| <= |was|
    ensures StoredFrom(was, abs, value, a, 0) == was
  {}

  lemma StoredFromStep(was: seq<Byte8>, abs: nat, value: Word, a: Addr, i: nat)
    requires i < |a.masks| <= 5 && a.shift < 8 && abs + |a.masks| <= |was|
    ensures var s := StoredFrom(was, abs, value, a, |a.masks| - 1 - i);
      s[abs + i] == was[abs + i] && StoredFrom(was, abs, value, a, |a.masks| - i) == s[abs + i := Stored(was[abs + i], value, a, i)]
  {}

  /** The fall-through switch of the source: from the last byte of the point down to its first. */
  method HwWrite(image: array<Byte8>, base: nat, a: Addr, value: Word)
    requires InBounds(a, base, image.Length)
    modifies image
    ensures image[..] == StoredFrom(old(image[..]), a.offset - base, value, a, |a.masks|)
  {
    var abs := a.offset - base;
    ghost var was := image[..];
    StoredFromNone(was, abs, value, a);
    for i := |a.masks| downto 0
      invariant image[..] == StoredFrom(was, abs, value, a, |a.masks| - i)
    {
      StoredFromStep(was, abs, value, a, i);
      var b := Stored(image[abs + i], value, a, i);
      image[abs + i] := b;
    }
  }

  /** What a write leaves: the value's bits in the window, and every byte outside the point as it was. */
  lemma WriteIsWindow(was: seq<Byte8>, abs: nat, value: Word, len: nat, u: Byte8, a: Addr)
    requires 1 <= len <= 32 && a.shift < 8 && a.masks == Masks(len, a.shift, u) && abs + |a.masks| <= |was|
    ensures var now := StoredFrom(was, abs, value, a, |a.masks|);
      && AllWritten(was, now, abs, value, len, u, a)
      && forall j :: 0 <= j < |was| && !(abs <= j < abs + |a.masks|) ==> now[j] == was[j]
  {
    var now := StoredFrom(was, abs, value, a, |a.masks|);
    forall i: nat | i < |a.masks| ensures WrittenAt(was, now, abs, value, len, u, a, i) {
      StoredIsWindow(was[abs + i], value, a, len, u, i);
      assert now[abs + i] == Stored(was[abs + i], value, a, i);
    }
  }

  lemma ByteAndBit(len: nat, shift: nat, u: Byte8, k: nat) returns (i: nat, b: nat)
    requires 1 <= len <= 32 && shift < 8 && k < len
    ensures i < |Masks(len, shift, u)| && b < 8 && InWindow(len, shift, i, b) && 8 * i + b - shift == k && (i == 0 ==> b >= shift)
  {
    i, b := (k + shift) / 8, (k + shift) % 8;
  }

  /** Bit by bit: written bits are read back, a bit that the first mask of a 32-bit point misses is read as 0. */
  lemma BitComesBack(was: seq<Byte8>, now: seq<Byte8>, abs: nat, value: Word, before: Word, len: nat, u: Byte8, a: Addr, k: nat)
    requires 1 <= len <= 32 && a.shift < 8 && a.masks == Masks(len, a.shift, u) && abs + |a.masks| <= |was| == |now| && k < len
    requires AllWritten(was, now, abs, value, len, u, a)
    ensures ReadValue(now, abs, a.masks, before, a.shift)[k] == (value[k] && (len < 32 || k + a.shift >= 8 || u[k + a.shift]))
  {
    var i, b := ByteAndBit(len, a.shift, u, k);
    assert WrittenAt(was, now, abs, value, len, u, a, i);
    assert WrittenBitAs(was[abs + i][b], now[abs + i][b], value, len, a.shift, u, |a.masks|, i, b);
    ReadBit(now, abs, before, len, a.shift, u, i, b);
  }

  /** The first mask has the bits of the point, which length 32 leaves to the compiler. */
  predicate FirstByteSelected(len: nat, shift: nat, u: Byte8) {
    len < 32 || forall b :: shift <= b < 8 ==> u[b]
  }

  /** Reading a point back after writing it gives the value modulo 2^len, if the first mask has the bits of the point. */
  lemma WriteThenRead(was: seq<Byte8>, abs: nat, value: Word, before: Word, len: nat, u: Byte8, a: Addr)
    requires 1 <= len <= 32 && a.shift < 8 && a.masks == Masks(len, a.shift, u) && abs + |a.masks| <= |was|
    requires FirstByteSelected(len, a.shift, u)
    ensures var r := ReadValue(StoredFrom(was, abs, value, a, |a.masks|), abs, a.masks, before, a.shift);
      And(r, LowMask(len)) == And(value, LowMask(len)) && Value(And(r, LowMask(len))) == Value(value) % Pow2(len)
  {
    var now := StoredFrom(was, abs, value, a, |a.masks|);
    var r := ReadValue(now, abs, a.masks, before, a.shift);
    WriteIsWindow(was, abs, value, len, u, a);
    forall k: nat | k < len ensures r[k] == value[k] {
      BitComesBack(was, now, abs, value, before, len, u, a, k);
    }
    LowBitsAreMod(value, len);
  }

  /** And only then: all ones written to a 32-bit point come back exactly when the first mask has its bits. */
  lemma FullWordReadsBackIff(was: seq<Byte8>, abs: nat, before: Word, u: Byte8, a: Addr)
    requires a.shift < 8 && a.masks == Masks(32, a.shift, u) && abs + |a.masks| <= |was|
    ensures FirstByteSelected(32, a.shift, u)
       <==> ReadValue(StoredFrom(was, abs, ONES, a, |a.masks|), abs, a.masks, before, a.shift) == ONES
  {
    var now := StoredFrom(was, abs, ONES, a, |a.masks|);
    var r := ReadValue(now, abs, a.masks, before, a.shift);
    WriteIsWindow(was, abs, ONES, 32, u, a);
    forall k: nat | k < 32 ensures r[k] == (k + a.shift >= 8 || u[k + a.shift]) {
      BitComesBack(was, now, abs, ONES, before, 32, u, a, k);
    }
    if b :| a.shift <= b < 8 && !u[b] {
      assert !r[b - a.shift] && ONES[b - a.shift];
    }
  }

  /** What the masks must be for bits outside the point to survive every write. */
  predicate SparesOutside(len: nat, shift: nat, u: Byte8)
    requires 1 <= len <= 32 && shift < 8
  {
    forall b :: 0 <= b < shift ==> !Cleared(len, shift, u, |Masks(len, shift, u)|, 0, b)
  }

  lemma SparesOutsideIff(len: nat, shift: nat, u: Byte8)
    requires 1 <= len <= 31 && shift < 8
    ensures SparesOutside(len, shift, u) <==> |Masks(len, shift, u)| >= 2 || shift == 0
  {
    if shift > 0 && |Masks(len, shift, u)| == 1 {
      assert Cleared(len, shift, u, 1, 0, 0);
    }
  }

  /**
   Bits outside the point survive every write exactly when, below length 32, the point spans two bytes or starts at
   bit 0 (SparesOutsideIff), and for length 32 when the compiler's first mask has no bit below the point.
   */
  lemma OutsideSurvivesIff(len: nat, shift: nat, u: Byte8)
    requires 1 <= len <= 32 && shift < 8
    ensures SparesOutside(len, shift, u) <==>
      forall old8: Byte8, value: Word, i: nat, b: nat :: i < |Masks(len, shift, u)| && b < 8 && !InWindow(len, shift, i, b) ==>
        Stored(old8, value, Addr(0, shift, Masks(len, shift, u)), i)[b] == old8[b]
  {
    var a := Addr(0, shift, Masks(len, shift, u));
    var num := |a.masks|;
    if SparesOutside(len, shift, u) {
      forall old8: Byte8, value: Word, i: nat, b: nat | i < num && b < 8 && !InWindow(len, shift, i, b)
        ensures Stored(old8, value, a, i)[b] == old8[b]
      {
        StoredIsWindow(old8, value, a, len, u, i);
        assert WrittenBitAs(old8[b], Stored(old8, value, a, i)[b], value, len, shift, u, num, i, b);
      }
    } else {
      var b: nat :| b < shift && Cleared(len, shift, u, num, 0, b);
      StoredIsWindow(Copies(8, true), ZERO, a, len, u, 0);
      assert WrittenBitAs(Copies(8, true)[b], Stored(Copies(8, true), ZERO, a, 0)[b], ZERO, len, shift, u, num, 0, b);
      assert !InWindow(len, shift, 0, b) && !Stored(Copies(8, true), ZERO, a, 0)[b] && Copies(8, true)[b];
    }
  }

  /** One bit at bit 1 of a byte of ones: writing 1 clears bit 0. */
  lemma SingleByteClears(u: Byte8)
    ensures Masks(1, 1, u) == [LastMask(2)]
    ensures var r := Stored(Copies(8, true), ONES, Addr(0, 1, Masks(1, 1, u)), 0); !r[0] && r[1]
  {
    StoredIsWindow(Copies(8, true), ONES, Addr(0, 1, Masks(1, 1, u)), 1, u, 0);
    assert WrittenBitAs(Copies(8, true)[0], Stored(Copies(8, true), ONES, Addr(0, 1, Masks(1, 1, u)), 0)[0], ONES, 1, 1, u, 1, 0, 0);
    assert WrittenBitAs(Copies(8, true)[1], Stored(Copies(8, true), ONES, Addr(0, 1, Masks(1, 1, u)), 0)[1], ONES, 1, 1, u, 1, 0, 1);
    assert ONES[0];
  }

  /** If the compiler makes 0 of the shift by 32, the low byte of a 32-bit point is lost, and if all ones, bits below the point are cleared. */
  lemma FullWordInputs()
    ensures !FirstByteSelected(32, 0, Copies(8, false)) && !SparesOutside(32, 1, Copies(8, true))
  {
    assert !Copies(8, false)[0];
    assert Copies(8, true)[0];
    assert Cleared(32, 1, Copies(8, true), |Masks(32, 1, Copies(8, true))|, 0, 0);
  }
}
