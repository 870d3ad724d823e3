/**
  The flat skip is the recursive descent, and it accepts exactly the encodings of
  `Skippable` elements.
 */
module Skipping {
  import opened Bytes
  import opened TlvFormat
  import opened ReaderSpec
  import opened FlatScan

  /** The reader on element `e`, whose encoding starts where `s` stands. */
  function On(s: Reader, e: Element): Reader {
    s.(pos := s.pos + |HeadOf(e)|, control := e.tag.Form() * 32 + TypeCode(e),
       tag := e.tag.Number(s.implicitProfile), lenOrVal := FieldValue(e))
  }

  /** The reader on the end byte of a container, when only that byte is left of it. */
  function OnClosing(s: Reader, closing: Tag): Reader {
    s.(pos := s.pos + |Head(closing, END_OF_CONTAINER, 0)|, control := closing.Form() * 32 + END_OF_CONTAINER,
       tag := closing.Number(s.implicitProfile), lenOrVal := 0)
  }

  /** The reader after `e`. */
  function Past(s: Reader, e: Element): Reader {
    s.Clear().(pos := s.pos + |Encode(e)|, containerOpen := s.containerOpen && !e.Container?)
  }

  /** The tag as it was written, from the control byte and the 64-bit tag. */
  function ReportedTag(s: Reader): Tag {
    if s.control < 0x100 then RecoverTag(s.control / 32, s.tag) else Anonymous
  }

  // ---- Heads ----

  /**
    Reading a head gives back the tag, the type and the field it was built from, but for the
    field behind a tag that is not read.
   */
  lemma HeadIsRead(s: Reader, tag: Tag, code: nat, field: nat)
    requires s.Valid() && tag.Ok() && code <= END_OF_CONTAINER && field < Pow256(FieldBytes(code))
    requires At(s.input, s.pos, Head(tag, code, field))
    ensures s.pos + |Head(tag, code, field)| <= |s.input|
    ensures |Head(tag, code, field)| == HeadBytes(Head(tag, code, field)[0])
    ensures !TagIsUnread(tag.Form(), s.implicitProfile) ==>
              FieldRead(Head(tag, code, field), s.implicitProfile) == field
    ensures var t := s.(pos := s.pos + |Head(tag, code, field)|, control := tag.Form() * 32 + code,
                        tag := tag.Number(s.implicitProfile),
                        lenOrVal := FieldRead(Head(tag, code, field), s.implicitProfile));
            t.Valid() && ReadElement(s) == (VerifyElement(t), t)
  {
    hide VerifyElement, FieldRead, TagOfHead, HeadBytes, Head, Pow256, Tag.Number, Tag.Form;
    var head := Head(tag, code, field);
    HeadHasParts(tag, code, field);
    HeadFieldIsRead(tag, code, field, s.implicitProfile);
    assert head[0] == s.input[s.pos];
  }

  lemma HeadHasParts(tag: Tag, code: nat, field: nat)
    requires tag.Ok() && code <= END_OF_CONTAINER && field < Pow256(FieldBytes(code))
    ensures var head := Head(tag, code, field);
            && head != [] && head[0] == tag.Form() * 32 + code && |head| == HeadBytes(head[0])
            && TagOfHead(head) == tag && FieldOfHead(head) == field
  {
    hide DecodeTag, FieldBytes, ReadLE, WriteLE, Pow256;
    var head := Head(tag, code, field);
    TagFieldDecodes(tag);
    ReadAfterWrite(field, FieldBytes(code));
    assert head[0] / 32 == tag.Form() && head[0] % 32 == code;
    assert head[1..1 + TagBytes(tag.Form())] == tag.Field();
    assert head[1 + TagBytes(tag.Form())..] == WriteLE(field, FieldBytes(code));
  }

  lemma HeadFieldIsRead(tag: Tag, code: nat, field: nat, implicitProfile: nat)
    requires tag.Ok() && code <= END_OF_CONTAINER && field < Pow256(FieldBytes(code))
    ensures var head := Head(tag, code, field);
            && head != [] && head[0] < 0x100 && |head| == HeadBytes(head[0])
            && (!TagIsUnread(tag.Form(), implicitProfile) ==> FieldRead(head, implicitProfile) == field)
  {
    hide HeadBytes, Head, Pow256, FieldOfHead, TagOfHead;
    HeadHasParts(tag, code, field);
  }

  /** A head of the right length is built from its own tag, type and field. */
  lemma HeadIsRebuilt(head: seq<Byte>)
    requires |head| > 0 && |head| == HeadBytes(head[0])
    ensures TagOfHead(head).Ok() && TagOfHead(head).Form() == head[0] / 32
    ensures FieldOfHead(head) < Pow256(FieldBytes(head[0] % 32))
    ensures Head(TagOfHead(head), head[0] % 32, FieldOfHead(head)) == head
  {
    hide DecodeTag, Tag.Field, ReadLE, WriteLE, Pow256, FieldBytes;
    var k := TagBytes(head[0] / 32);
    DecodedTagEncodes(head[0] / 32, head[1..1 + k]);
    WriteAfterRead(head[1 + k..]);
    ThreeParts(head, k);
  }

  lemma ThreeParts(bs: seq<Byte>, k: nat)
    requires 1 + k <= |bs|
    ensures bs == [bs[0]] + bs[1..1 + k] + bs[1 + k..]
  {
    assert bs[1..] == bs[1..1 + k] + bs[1 + k..];
    assert bs == [bs[0]] + bs[1..];
  }

  /** Behind a tag that is not read, no element passes, so only a failed read shows the wrong field. */
  lemma UnreadTagFails(s: Reader)
    requires s.Valid() && s.pos < |s.input|
    ensures TagIsUnread(s.input[s.pos] / 32, s.implicitProfile) ==> ReadElement(s).0 != NoError
  {
    hide FieldRead;
  }

  /** It is taken from the tag's own bytes: an 8-bit number 0x2A behind tag 7 is read as 7. */
  lemma UnreadTagIsTheField()
    ensures var s := Init([0x84, 0x07, 0x00, 0x2A]);
            ReadElement(s).0 == UnknownImplicitTlvTag && ReadElement(s).1.lenOrVal == 0x07
  {
    var head: seq<Byte> := [0x84, 0x07, 0x00, 0x2A];
    assert head[0..4] == head && head[1..2] == [0x07];
    FieldOfOneByte(0x07);
    assert FieldRead(head, PROFILE_NOT_SPECIFIED) == 7;
    hide FieldRead, ReadLE;
    assert DecodeTag(4, head[1..3]).Number(PROFILE_NOT_SPECIFIED) == UNKNOWN_IMPLICIT_TAG;
  }

  lemma FieldOfOneByte(b: Byte)
    ensures ReadLE([b]) == b
  {
    assert [b][1..] == [];
  }

  /** Whatever head is read, it is the head of the recovered tag, type and field. */
  lemma ReadHeadIsHead(s: Reader)
    requires s.Valid() && ReadElement(s).0 == NoError
    ensures var t := ReadElement(s).1;
            var tag := ReportedTag(t);
            && t.control < 0x100 && t.ElementType() <= END_OF_CONTAINER && tag.Ok()
            && t.lenOrVal < Pow256(FieldBytes(t.ElementType()))
            && tag.Number(s.implicitProfile) == t.tag && tag.Form() == t.control / 32
            && At(s.input, s.pos, Head(tag, t.ElementType(), t.lenOrVal))
            && t == s.(pos := s.pos + |Head(tag, t.ElementType(), t.lenOrVal)|, control := t.control,
                       tag := t.tag, lenOrVal := t.lenOrVal)
            && VerifyElement(t) == NoError
  {
    hide DecodeTag, FieldOfHead, FieldRead, TagOfHead, RecoverTag, Head, HeadBytes;
    var c := s.input[s.pos];
    var head := s.input[s.pos..s.pos + HeadBytes(c)];
    assert head[0] == c;
    HeadIsRebuilt(head);
    UnreadTagFails(s);
    TagRecovered(TagOfHead(head), s.implicitProfile);
    FieldIsRead(head, s.implicitProfile);
    assert ReadElement(s).1 == AfterHead(s, head);
  }

  lemma FieldIsRead(head: seq<Byte>, implicitProfile: nat)
    requires |head| > 0 && |head| == HeadBytes(head[0]) && !TagIsUnread(head[0] / 32, implicitProfile)
    ensures FieldRead(head, implicitProfile) == FieldOfHead(head)
  {
  }

  lemma AllowedTagIsRead(tag: Tag, implicitProfile: nat)
    ensures tag.Number(implicitProfile) != UNKNOWN_IMPLICIT_TAG ==> !TagIsUnread(tag.Form(), implicitProfile)
  {
  }

  /** A skippable element is read as itself. */
  lemma ElementIsRead(s: Reader, e: Element, forgets: bool)
    requires s.Valid() && At(s.input, s.pos, Encode(e))
    requires Skippable(e, s.containerType, forgets, s.implicitProfile)
    ensures On(s, e).Valid() && ReadElement(s) == (NoError, On(s, e))
    ensures On(s, e).ElementType() == TypeCode(e) && On(s, e).control < 0x100
  {
    hide Head, ReadElement, FieldBytes, Encode, TypeCode, Tag.Field, Tag.Number, Tag.Form, AllSkippable;
    FieldFits(e, s.containerType, forgets, s.implicitProfile);
    HeadStands(s, e);
    AllowedTagIsRead(e.tag, s.implicitProfile);
    HeadIsRead(s, e.tag, TypeCode(e), FieldValue(e));
  }

  lemma HeadStands(s: Reader, e: Element)
    requires At(s.input, s.pos, Encode(e))
    ensures At(s.input, s.pos, HeadOf(e))
    ensures e.Text? ==>
              At(s.input, s.pos + |HeadOf(e)|, e.data) && s.pos + |Encode(e)| == s.pos + |HeadOf(e)| + |e.data|
    ensures e.Container? ==>
              var p := s.pos + |HeadOf(e)|;
              && At(s.input, p, EncodeAll(e.members))
              && At(s.input, p + |EncodeAll(e.members)|, Head(e.closing, END_OF_CONTAINER, 0))
              && s.pos + |Encode(e)| == p + |EncodeAll(e.members)| + |Head(e.closing, END_OF_CONTAINER, 0)|
  {
    hide HeadOf, Head, EncodeAll, At;
    match e
    case Leaf(_, _) =>
    case Text(_, _, _, _, data) => AtConcat(s.input, s.pos, HeadOf(e), data);
    case Container(_, _, members, closing) =>
      var body := EncodeAll(members);
      AtConcat(s.input, s.pos, HeadOf(e), body + Head(closing, END_OF_CONTAINER, 0));
      AtConcat(s.input, s.pos + |HeadOf(e)|, body, Head(closing, END_OF_CONTAINER, 0));
  }

  lemma ClosingIsRead(s: Reader, closing: Tag)
    requires s.Valid() && At(s.input, s.pos, Head(closing, END_OF_CONTAINER, 0))
    requires ClosingOk(closing, s.implicitProfile) && s.containerType != NOT_SPECIFIED
    ensures OnClosing(s, closing).Valid() && ReadElement(s) == (NoError, OnClosing(s, closing))
    ensures OnClosing(s, closing).ElementType() == END_OF_CONTAINER && OnClosing(s, closing).control < 0x100
  {
    hide Head, ReadElement, FieldRead, Tag.Number, Tag.Form;
    AllowedTagIsRead(closing, s.implicitProfile);
    HeadIsRead(s, closing, END_OF_CONTAINER, 0);
  }

  lemma NoDataToSkip(s: Reader)
    requires s.Valid() && !HasLength(s.ElementType())
    ensures SkipData(s) == (NoError, s)
  {
  }

  lemma DataIsSkipped(s: Reader, e: Element, forgets: bool)
    requires s.Valid() && At(s.input, s.pos, Encode(e)) && !e.Container?
    requires Skippable(e, s.containerType, forgets, s.implicitProfile)
    ensures On(s, e).Valid() && SkipData(On(s, e)) == (NoError, On(s, e).(pos := s.pos + |Encode(e)|))
  {
    hide HeadOf, ReadElement, FieldBytes, TypeCode, VerifyElement, TagAllowed;
    ElementIsRead(s, e, forgets);
    FieldFits(e, s.containerType, forgets, s.implicitProfile);
    HeadStands(s, e);
  }

  // ---- Skippable encodings are skipped ----

  lemma DescendsInto(s: Reader, t: Reader, u: Reader, atTop: bool, outer: int)
    requires s.Valid() && SkipData(s) == (NoError, t) && ReadElement(t) == (NoError, u)
    requires IsContainerType(u.ElementType())
    requires DescendMembers(u.(containerType := u.ElementType()), false, outer).0 == NoError
    ensures DescendMembers(s, atTop, outer) ==
            DescendMembers(DescendMembers(u.(containerType := u.ElementType()), false, outer).1.(
                             containerType := if atTop then outer else UNKNOWN_CONTAINER), atTop, outer)
  {
    hide ReadElement, SkipData;
  }

  lemma DescendsPast(s: Reader, t: Reader, u: Reader, atTop: bool, outer: int)
    requires s.Valid() && SkipData(s) == (NoError, t) && ReadElement(t) == (NoError, u)
    requires !IsContainerType(u.ElementType())
    ensures DescendMembers(s, atTop, outer) ==
            if u.ElementType() == END_OF_CONTAINER then (NoError, u) else DescendMembers(u, atTop, outer)
  {
    hide ReadElement, SkipData;
  }

  /** From between members or on a leaf, the descent over skippable members ends on the closing byte. */
  lemma {:induction false} DescentOverMembers(
    s: Reader, t: Reader, es: seq<Element>, closing: Tag, atTop: bool, outer: int)
    requires s.Valid() && SkipData(s) == (NoError, t)
    requires At(t.input, t.pos, EncodeAll(es) + Head(closing, END_OF_CONTAINER, 0))
    requires t.containerType != NOT_SPECIFIED && AllSkippable(es, t.containerType, !atTop, t.implicitProfile)
    requires ClosingOk(closing, t.implicitProfile)
    requires atTop ==> outer == t.containerType
    ensures var (err, u) := DescendMembers(s, atTop, outer);
            && err == NoError
            && u == OnClosing(t.(pos := t.pos + |EncodeAll(es)|, containerType := u.containerType), closing)
            && (atTop ==> u.containerType == outer)
            && u.ElementType() == END_OF_CONTAINER
    decreases es, 0
  {
    hide Head, ReadElement, SkipData, Encode, VerifyElement, At, DescendMembers, Skippable;
    AtConcat(t.input, t.pos, EncodeAll(es), Head(closing, END_OF_CONTAINER, 0));
    if es == [] {
      ClosingIsRead(t, closing);
      DescendsPast(s, t, OnClosing(t, closing), atTop, outer);
    } else {
      AtConcat(t.input, t.pos, Encode(es[0]), EncodeAll(es[1..]));
      AtConcat(t.input, t.pos + |Encode(es[0])|, EncodeAll(es[1..]), Head(closing, END_OF_CONTAINER, 0));
      var s', t' := DescentOverElement(s, t, es[0], atTop, outer);
      DescentOverMembers(s', t', es[1..], closing, atTop, outer);
    }
  }

  lemma {:induction false} DescentOverElement(s: Reader, t: Reader, e: Element, atTop: bool, outer: int)
    returns (s': Reader, t': Reader)
    requires s.Valid() && SkipData(s) == (NoError, t)
    requires At(t.input, t.pos, Encode(e))
    requires Skippable(e, t.containerType, true, t.implicitProfile)
    requires atTop ==> outer == t.containerType
    ensures s'.Valid() && SkipData(s') == (NoError, t')
    ensures DescendMembers(s, atTop, outer) == DescendMembers(s', atTop, outer)
    ensures t' == t.(pos := t.pos + |Encode(e)|, containerType := t'.containerType, control := t'.control,
                     tag := t'.tag, lenOrVal := t'.lenOrVal)
    ensures t'.containerType == if !atTop && e.Container? then UNKNOWN_CONTAINER else t.containerType
    decreases e, 1
  {
    hide Head, HeadOf, ReadElement, SkipData, Encode, EncodeAll, TypeCode, VerifyElement, TagAllowed, At,
         DescendMembers;
    ElementIsRead(t, e, true);
    FieldFits(e, t.containerType, true, t.implicitProfile);
    HeadStands(t, e);
    if e.Container? {
      var inside := On(t, e).(containerType := e.kind);
      AtConcat(t.input, inside.pos, EncodeAll(e.members), Head(e.closing, END_OF_CONTAINER, 0));
      NoDataToSkip(inside);
      DescentOverMembers(inside, inside, e.members, e.closing, false, outer);
      DescendsInto(s, t, On(t, e), atTop, outer);
      s' := DescendMembers(inside, false, outer).1.(containerType := if atTop then outer else UNKNOWN_CONTAINER);
      NoDataToSkip(s');
      t' := s';
    } else {
      DataIsSkipped(t, e, true);
      DescendsPast(s, t, On(t, e), atTop, outer);
      s' := On(t, e);
      t' := SkipData(s').1;
    }
  }

  /** One Skip from the head of a skippable element lands right behind its encoding. */
  lemma SkipIsPast(s: Reader, e: Element)
    requires s.Valid() && At(s.input, s.pos, Encode(e))
    requires Skippable(e, s.containerType, false, s.implicitProfile)
    ensures On(s, e).Valid() && Skip(On(s, e)) == (NoError, Past(s, e)) && Past(s, e).Between()
  {
    hide HeadOf, Head, ReadElement, SkipToEndOfContainer, DescendMembers, SkipData, EncodeAll, VerifyElement, At,
         TypeCode, FieldValue, AllSkippable, TagAllowed, Encode;
    ElementIsRead(s, e, false);
    FieldFits(e, s.containerType, false, s.implicitProfile);
    HeadStands(s, e);
    if e.Container? {
      var inside := EnterContainer(On(s, e)).1;
      SkipIsDescent(inside);
      AtConcat(s.input, inside.pos, EncodeAll(e.members), Head(e.closing, END_OF_CONTAINER, 0));
      NoDataToSkip(inside);
      DescentOverMembers(inside, inside, e.members, e.closing, true, e.kind);
    } else {
      DataIsSkipped(s, e, false);
    }
  }
}
