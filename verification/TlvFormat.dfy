/**
  The Matter TLV encoding (Appendix A of the Matter Core Specification) as a tree and
  as bytes. The dissector only reads TLV, so `Encode` is the specification side.
 */
module TlvFormat {
  import opened Bytes

  // Element types and the TLVType values that only the reader uses.
  const NOT_SPECIFIED := -1
  const UNKNOWN_CONTAINER := -2
  const STRUCTURE := 0x15
  const ARRAY := 0x16
  const PATH := 0x17
  const END_OF_CONTAINER := 0x18

  const ANONYMOUS_TAG := 0xFFFF_FFFF_FFFF_FFFF
  const UNKNOWN_IMPLICIT_TAG := 0xFFFF_FFFF_FFFF_FFFE
  const SPECIAL_TAG_MARKER := 0xFFFF_FFFF_0000_0000
  const PROFILE_NOT_SPECIFIED := 0xFFFF_FFFF

  predicate IsContainerType(t: int) { STRUCTURE <= t <= PATH }

  predicate HasLength(t: int) { 0x0C <= t <= 0x13 }

  predicate HasValue(t: int) { 0 <= t <= 0x07 || 0x0A <= t <= 0x13 }

  /** Bytes of the length or value field that follows the tag. */
  function FieldBytes(t: int): (n: nat)
    ensures n in {0, 1, 2, 4, 8}
  {
    if !HasValue(t) then 0
    else if t % 4 == 0 then 1 else if t % 4 == 1 then 2 else if t % 4 == 2 then 4 else 8
  }

  /** How a tag was written: the tag control bits and the fields behind them. */
  datatype Tag =
    | Anonymous
    | Context(num: nat)
    | Common16(num: nat)
    | Common32(num: nat)
    | Implicit16(num: nat)
    | Implicit32(num: nat)
    | Full48(vendor: nat, profile: nat, num: nat)
    | Full64(vendor: nat, profile: nat, num: nat)
  {
    predicate Ok() {
      match this
      case Anonymous => true
      case Context(n) => n < 0x100
      case Common16(n) => n < 0x1_0000
      case Common32(n) => n < 0x1_0000_0000
      case Implicit16(n) => n < 0x1_0000
      case Implicit32(n) => n < 0x1_0000_0000
      case Full48(v, p, n) => v < 0x1_0000 && p < 0x1_0000 && n < 0x1_0000
      case Full64(v, p, n) => v < 0x1_0000 && p < 0x1_0000 && n < 0x1_0000_0000
    }

    /** The three tag control bits. */
    function Form(): (f: nat)
      ensures f < 8
    {
      match this
      case Anonymous => 0
      case Context(_) => 1
      case Common16(_) => 2
      case Common32(_) => 3
      case Implicit16(_) => 4
      case Implicit32(_) => 5
      case Full48(_, _, _) => 6
      case Full64(_, _, _) => 7
    }

    function Field(): seq<Byte> {
      match this
      case Anonymous => []
      case Context(n) => WriteLE(n, 1)
      case Common16(n) => WriteLE(n, 2)
      case Common32(n) => WriteLE(n, 4)
      case Implicit16(n) => WriteLE(n, 2)
      case Implicit32(n) => WriteLE(n, 4)
      case Full48(v, p, n) => WriteLE(v, 2) + WriteLE(p, 2) + WriteLE(n, 2)
      case Full64(v, p, n) => WriteLE(v, 2) + WriteLE(p, 2) + WriteLE(n, 4)
    }

    /** The 64-bit tag the reader reports; implicit tags take the reader's profile. */
    function Number(implicitProfile: nat): nat {
      match this
      case Anonymous => ANONYMOUS_TAG
      case Context(n) => SPECIAL_TAG_MARKER + n
      case Common16(n) => n
      case Common32(n) => n
      case Implicit16(n) =>
        if implicitProfile == PROFILE_NOT_SPECIFIED then UNKNOWN_IMPLICIT_TAG else implicitProfile * 0x1_0000_0000 + n
      case Implicit32(n) =>
        if implicitProfile == PROFILE_NOT_SPECIFIED then UNKNOWN_IMPLICIT_TAG else implicitProfile * 0x1_0000_0000 + n
      case Full48(v, p, n) => v * 0x1_0000_0000_0000 + p * 0x1_0000_0000 + n
      case Full64(v, p, n) => v * 0x1_0000_0000_0000 + p * 0x1_0000_0000 + n
    }
  }

  function TagBytes(form: nat): (n: nat)
    requires form < 8
    ensures n <= 8
  {
    [0, 1, 2, 4, 2, 4, 6, 8][form]
  }

  /** An implicit tag's bytes are not even read where no implicit profile is set. */
  predicate TagIsUnread(form: nat, implicitProfile: nat) {
    form in {4, 5} && implicitProfile == PROFILE_NOT_SPECIFIED
  }

  function DecodeTag(form: nat, bs: seq<Byte>): Tag
    requires form < 8 && |bs| == TagBytes(form)
  {
    match form
    case 0 => Anonymous
    case 1 => Context(ReadLE(bs))
    case 2 => Common16(ReadLE(bs))
    case 3 => Common32(ReadLE(bs))
    case 4 => Implicit16(ReadLE(bs))
    case 5 => Implicit32(ReadLE(bs))
    case 6 => Full48(ReadLE(bs[..2]), ReadLE(bs[2..4]), ReadLE(bs[4..]))
    case 7 => Full64(ReadLE(bs[..2]), ReadLE(bs[2..4]), ReadLE(bs[4..]))
  }

  /** The written tag, from the control bits and the reported 64-bit number. */
  function RecoverTag(form: nat, number: nat): Tag
    requires form < 8
  {
    var low := number % 0x1_0000_0000;
    var mid := (number / 0x1_0000_0000) % 0x1_0000;
    match form
    case 0 => Anonymous
    case 1 => Context(low)
    case 2 => Common16(low)
    case 3 => Common32(low)
    case 4 => Implicit16(low)
    case 5 => Implicit32(low)
    case 6 => Full48(number / 0x1_0000_0000_0000, mid, low)
    case 7 => Full64(number / 0x1_0000_0000_0000, mid, low)
  }

  lemma TagFieldDecodes(t: Tag)
    requires t.Ok()
    ensures |t.Field()| == TagBytes(t.Form())
    ensures DecodeTag(t.Form(), t.Field()) == t
  {
    Widths();
    match t
    case Anonymous =>
    case Context(n) => ReadAfterWrite(n, 1);
    case Common16(n) => ReadAfterWrite(n, 2);
    case Common32(n) => ReadAfterWrite(n, 4);
    case Implicit16(n) => ReadAfterWrite(n, 2);
    case Implicit32(n) => ReadAfterWrite(n, 4);
    case Full48(v, p, n) =>
      FullFieldSplits(v, p, n, 2);
    case Full64(v, p, n) =>
      FullFieldSplits(v, p, n, 4);
  }

  lemma FullFieldSplits(v: nat, p: nat, n: nat, k: nat)
    requires v < 0x1_0000 && p < 0x1_0000 && n < Pow256(k)
    ensures var f := WriteLE(v, 2) + WriteLE(p, 2) + WriteLE(n, k);
            |f| == 4 + k && ReadLE(f[..2]) == v && ReadLE(f[2..4]) == p && ReadLE(f[4..]) == n
  {
    Widths();
    var f := WriteLE(v, 2) + WriteLE(p, 2) + WriteLE(n, k);
    assert f[..2] == WriteLE(v, 2) && f[2..4] == WriteLE(p, 2) && f[4..] == WriteLE(n, k);
    ReadAfterWrite(v, 2);
    ReadAfterWrite(p, 2);
    ReadAfterWrite(n, k);
  }

  lemma DecodedTagEncodes(form: nat, bs: seq<Byte>)
    requires form < 8 && |bs| == TagBytes(form)
    ensures DecodeTag(form, bs).Ok() && DecodeTag(form, bs).Form() == form
    ensures DecodeTag(form, bs).Field() == bs
  {
    Widths();
    if form < 6 {
      WriteAfterRead(bs);
    } else {
      WriteAfterRead(bs[..2]);
      WriteAfterRead(bs[2..4]);
      WriteAfterRead(bs[4..]);
      assert bs == bs[..2] + bs[2..4] + bs[4..];
    }
  }

  /** Nothing of a tag is lost in (control bits, 64-bit number) unless its profile is unknown. */
  lemma TagRecovered(t: Tag, implicitProfile: nat)
    requires t.Ok()
    requires t.Number(implicitProfile) != UNKNOWN_IMPLICIT_TAG || !(t.Implicit16? || t.Implicit32?)
    ensures RecoverTag(t.Form(), t.Number(implicitProfile)) == t
  {
    match t
    case Full48(v, p, n) => PackedTag(v, p, n);
    case Full64(v, p, n) => PackedTag(v, p, n);
    case _ =>
  }

  lemma PackedTag(v: nat, p: nat, n: nat)
    requires p < 0x1_0000 && n < 0x1_0000_0000
    ensures var t := v * 0x1_0000_0000_0000 + p * 0x1_0000_0000 + n;
            t / 0x1_0000_0000_0000 == v && (t / 0x1_0000_0000) % 0x1_0000 == p && t % 0x1_0000_0000 == n
  {
    var t := v * 0x1_0000_0000_0000 + p * 0x1_0000_0000 + n;
    assert t == 0x1_0000_0000 * (v * 0x1_0000 + p) + n;
    assert t / 0x1_0000_0000 == v * 0x1_0000 + p;
  }

  /** IsContextTag. */
  predicate IsContextTag(tag: nat) {
    tag / 0x1_0000_0000 == 0xFFFF_FFFF && tag % 0x1_0000_0000 < 0x100
  }

  /** IsProfileTag. */
  predicate IsProfileTag(tag: nat) {
    tag / 0x1_0000_0000 != 0xFFFF_FFFF
  }

  /** The tag rule of `VerifyElement` for an element that is no end-of-container. */
  predicate TagAllowed(tag: nat, containerType: int) {
    tag != UNKNOWN_IMPLICIT_TAG &&
    if containerType == NOT_SPECIFIED then !IsContextTag(tag)
    else if containerType == STRUCTURE || containerType == PATH then tag != ANONYMOUS_TAG
    else if containerType == ARRAY then tag == ANONYMOUS_TAG
    else containerType == UNKNOWN_CONTAINER
  }

  datatype Value =
    | Signed(width: nat, number: int)
    | Unsigned(width: nat, number: int)
    | Boolean(truth: bool)
    | Float(width: nat, bits: nat)
    | Null

  datatype Element =
    | Leaf(tag: Tag, value: Value)
    | Text(tag: Tag, utf8: bool, width: nat, length: nat, data: seq<Byte>)
    | Container(tag: Tag, kind: int, members: seq<Element>, closing: Tag)

  function WidthCode(width: nat): (c: nat)
    ensures c < 4
  {
    if width == 1 then 0 else if width == 2 then 1 else if width == 4 then 2 else 3
  }

  predicate IsWidth(width: nat) { width in {1, 2, 4, 8} }

  predicate ValueOk(v: Value) {
    match v
    case Signed(w, n) => IsWidth(w) && 0 <= 2 * n + Pow256(w) && 2 * n < Pow256(w)
    case Unsigned(w, n) => IsWidth(w) && 0 <= n < Pow256(w)
    case Float(w, bits) => w in {4, 8} && bits < Pow256(w)
    case _ => true
  }

  /** The element type in the low five bits of the control byte. */
  function TypeCode(e: Element): (c: nat)
  {
    match e
    case Leaf(_, Signed(w, _)) => WidthCode(w)
    case Leaf(_, Unsigned(w, _)) => 0x04 + WidthCode(w)
    case Leaf(_, Boolean(b)) => if b then 0x09 else 0x08
    case Leaf(_, Float(w, _)) => if w == 4 then 0x0A else 0x0B
    case Leaf(_, Null) => 0x14
    case Text(_, utf8, w, _, _) => (if utf8 then 0x0C else 0x10) + WidthCode(w)
    case Container(_, kind, _, _) => if IsContainerType(kind) then kind else STRUCTURE
  }

  /** The length or value field; two's complement for signed integers. */
  function FieldValue(e: Element): nat {
    match e
    case Leaf(_, Signed(w, n)) => if n >= 0 then n else if n + Pow256(w) >= 0 then n + Pow256(w) else 0
    case Leaf(_, Unsigned(_, n)) => if n >= 0 then n else 0
    case Leaf(_, Float(_, bits)) => bits
    case Text(_, _, _, length, _) => length
    case _ => 0
  }

  function Head(tag: Tag, code: nat, field: nat): seq<Byte>
    requires code < 32
  {
    [tag.Form() * 32 + code] + tag.Field() + WriteLE(field, FieldBytes(code))
  }

  function HeadOf(e: Element): seq<Byte> {
    Head(e.tag, TypeCode(e), FieldValue(e))
  }

  function Encode(e: Element): seq<Byte>
    decreases e, 1
  {
    match e
    case Leaf(_, _) => HeadOf(e)
    case Text(_, _, _, _, data) => HeadOf(e) + data
    case Container(_, _, members, closing) =>
      HeadOf(e) + (EncodeAll(members) + Head(closing, END_OF_CONTAINER, 0))
  }

  function EncodeAll(es: seq<Element>): seq<Byte>
    decreases es, 0
  {
    if es == [] then [] else Encode(es[0]) + EncodeAll(es[1..])
  }

  /** What a full walk lets through: field ranges, and `VerifyElement` in each container. */
  predicate WellFormed(e: Element, containerType: int, profile: nat)
    decreases e, 1
  {
    && e.tag.Ok()
    && TagAllowed(e.tag.Number(profile), containerType)
    && match e
       case Leaf(_, v) => ValueOk(v)
       case Text(_, _, w, length, data) =>
         IsWidth(w) && length == |data| < Pow256(w) && length < 0x1_0000_0000
       case Container(_, kind, members, closing) =>
         && IsContainerType(kind)
         && AllWellFormed(members, kind, profile)
         && ClosingOk(closing, profile)
  }

  predicate AllWellFormed(es: seq<Element>, containerType: int, profile: nat)
    decreases es, 0
  {
    es == [] || (WellFormed(es[0], containerType, profile) && AllWellFormed(es[1..], containerType, profile))
  }

  predicate ClosingOk(closing: Tag, profile: nat) {
    closing.Ok() && closing.Number(profile) == ANONYMOUS_TAG
  }

  /**
    What the flat skip lets through. Length fields count modulo 2^32, and with `forgets`,
    members behind a nested container are no longer checked against the container type.
   */
  predicate Skippable(e: Element, containerType: int, forgets: bool, profile: nat)
    decreases e, 1
  {
    && e.tag.Ok()
    && TagAllowed(e.tag.Number(profile), containerType)
    && match e
       case Leaf(_, v) => ValueOk(v)
       case Text(_, _, w, length, data) =>
         IsWidth(w) && length < Pow256(w) && length % 0x1_0000_0000 == |data|
       case Container(_, kind, members, closing) =>
         && IsContainerType(kind)
         && AllSkippable(members, kind, forgets, profile)
         && ClosingOk(closing, profile)
  }

  predicate AllSkippable(es: seq<Element>, containerType: int, forgets: bool, profile: nat)
    decreases es, 0
  {
    es == [] ||
    (&& Skippable(es[0], containerType, true, profile)
     && AllSkippable(es[1..], if forgets && es[0].Container? then UNKNOWN_CONTAINER else containerType,
                      forgets, profile))
  }

  lemma {:induction false} WellFormedIsSkippable(e: Element, c: int, containerType: int, forgets: bool, profile: nat)
    requires WellFormed(e, c, profile) && containerType in {c, UNKNOWN_CONTAINER}
    ensures Skippable(e, containerType, forgets, profile)
    decreases e, 1
  {
    if e.Container? {
      AllWellFormedSkippable(e.members, e.kind, e.kind, forgets, profile);
    }
  }

  lemma {:induction false} AllWellFormedSkippable(es: seq<Element>, c: int, containerType: int,
    forgets: bool, profile: nat)
    requires AllWellFormed(es, c, profile) && containerType in {c, UNKNOWN_CONTAINER}
    ensures AllSkippable(es, containerType, forgets, profile)
    decreases es, 0
  {
    if es != [] {
      WellFormedIsSkippable(es[0], c, containerType, true, profile);
      AllWellFormedSkippable(es[1..], c, if forgets && es[0].Container? then UNKNOWN_CONTAINER else containerType,
                             forgets, profile);
    }
  }

  /**
    A container is closed by the plain end byte, except that a fully qualified tag whose
    fields are all ones also reports as anonymous and is let through.
   */
  lemma ClosingTags(closing: Tag, profile: nat)
    requires profile < 0x1_0000_0000
    ensures ClosingOk(closing, profile) <==>
            closing == Anonymous || closing == Full64(0xFFFF, 0xFFFF, 0xFFFF_FFFF)
  {
  }

  lemma FieldFits(e: Element, containerType: int, forgets: bool, profile: nat)
    requires Skippable(e, containerType, forgets, profile)
    ensures TypeCode(e) < END_OF_CONTAINER && FieldValue(e) < Pow256(FieldBytes(TypeCode(e)))
    ensures IsContainerType(TypeCode(e)) <==> e.Container?
    ensures e.Container? ==> TypeCode(e) == e.kind
    ensures HasLength(TypeCode(e)) <==> e.Text?
  {
    Widths();
  }
}
