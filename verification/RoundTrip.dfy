/**
  A full walk with Next, EnterContainer, ExitContainer and the getters rebuilds the tree
  whose encoding it reads, and it accepts nothing but encodings of well-formed trees.
 */
module RoundTrip {
  import opened Bytes
  import opened TlvFormat
  import opened ReaderSpec
  import opened FlatScan
  import opened Skipping

  datatype Result<+T> = Ok(value: T) | Err(error: Error)

  /** What the getters say about the current element, which is no container. */
  function ReadLeaf(s: Reader): (r: Result<(Element, Reader)>)
    requires s.Valid() && s.control < 0x100
    ensures r.Ok? ==> Advances(s, r.value.1)
  {
    var tag := ReportedTag(s);
    var t := s.ElementType();
    var width := FieldBytes(t);
    if GetType(s) == 0x00 then Ok((Leaf(tag, Signed(width, GetI64(s).1)), s))
    else if GetType(s) == 0x04 then Ok((Leaf(tag, Unsigned(width, GetU64(s).1)), s))
    else if GetType(s) == 0x08 then Ok((Leaf(tag, Boolean(GetBool(s).1)), s))
    else if GetType(s) == 0x0A then Ok((Leaf(tag, Float(width, s.lenOrVal)), s))
    else if GetType(s) == 0x14 then Ok((Leaf(tag, Null), s))
    else
      var (err, data, u) := GetBytes(s, GetLength(s));
      if err != NoError then Err(err) else Ok((Text(tag, GetType(s) == 0x0C, width, |data|, data), u))
  }

  /** Reads the whole element the reader is on. */
  function Walk(s: Reader): (r: Result<(Element, Reader)>)
    requires s.Valid() && s.control < 0x100
    ensures r.Ok? ==> Advances(s, r.value.1)
    decreases |s.input| - s.pos, 1
  {
    if !IsContainerType(s.ElementType()) then ReadLeaf(s)
    else
      var (_, inside, outer) := EnterContainer(s);
      match WalkMembers(inside)
      case Err(err) => Err(err)
      case Ok((members, last)) =>
        var (err, after) := ExitContainer(last, outer);
        if err != NoError then Err(err)
        else
          Ok((Container(ReportedTag(s), s.ElementType(), members, ReportedTag(last)), after))
  }

  /** Calls Next, and reads each element found, until Next reports the end. */
  function WalkMembers(s: Reader): (r: Result<(seq<Element>, Reader)>)
    requires s.Valid()
    ensures r.Ok? ==> Advances(s, r.value.1)
    decreases |s.input| - s.pos, 0
  {
    var (err, t) := Next(s);
    if err == EndOfTlv then Ok(([], t))
    else if err != NoError then Err(err)
    else
      match Walk(t)
      case Err(err) => Err(err)
      case Ok((e, u)) =>
        match WalkMembers(u)
        case Err(err) => Err(err)
        case Ok((es, last)) => Ok(([e] + es, last))
  }

  function PastAll(s: Reader, es: seq<Element>): Reader
    decreases es
  {
    if es == [] then s else PastAll(Past(s, es[0]), es[1..])
  }

  lemma {:induction false} PastAllPosition(s: Reader, es: seq<Element>)
    requires s == s.Clear()
    ensures PastAll(s, es) == s.(pos := s.pos + |EncodeAll(es)|, containerOpen := PastAll(s, es).containerOpen)
    ensures !s.containerOpen ==> !PastAll(s, es).containerOpen
    decreases es
  {
    if es != [] {
      PastAllPosition(Past(s, es[0]), es[1..]);
    }
  }

  /** Next depends on the old state only through Skip. */
  lemma NextIsOn(t: Reader, s: Reader, e: Element)
    requires t.Valid() && Skip(t) == (NoError, s)
    requires At(s.input, s.pos, Encode(e)) && WellFormed(e, s.containerType, s.implicitProfile)
    ensures On(s, e).Valid() && On(s, e).control < 0x100 && Next(t) == (NoError, On(s, e))
  {
    hide HeadOf, ReadElement, Skip, Encode, At, TypeCode;
    WellFormedIsSkippable(e, s.containerType, s.containerType, false, s.implicitProfile);
    ElementIsRead(s, e, false);
    FieldFits(e, s.containerType, false, s.implicitProfile);
  }

  /** The type GetType reports. */
  function TypeOf(e: Element): int {
    match e
    case Leaf(_, Signed(_, _)) => 0x00
    case Leaf(_, Unsigned(_, _)) => 0x04
    case Leaf(_, Boolean(_)) => 0x08
    case Leaf(_, Float(_, _)) => 0x0A
    case Leaf(_, Null) => 0x14
    case Text(_, utf8, _, _, _) => if utf8 then 0x0C else 0x10
    case Container(_, kind, _, _) => kind
  }

  lemma TypeIsReported(t: Reader, e: Element)
    requires t.ElementType() == TypeCode(e) && (e.Container? ==> IsContainerType(e.kind))
    ensures GetType(t) == TypeOf(e)
  {
  }

  /** Next with expectations stops on the element like Next, and compares its type before its tag. */
  lemma ExpectedIsCompared(t: Reader, s: Reader, e: Element, expectedType: int, expectedTag: nat)
    requires t.Valid() && Skip(t) == (NoError, s)
    requires At(s.input, s.pos, Encode(e)) && WellFormed(e, s.containerType, s.implicitProfile)
    ensures NextExpecting(t, expectedType, expectedTag) ==
            (if expectedType != TypeOf(e) then WrongTlvType
             else if expectedTag != e.tag.Number(s.implicitProfile) then UnexpectedTlvElement
             else NoError,
             On(s, e))
  {
    hide HeadOf, ReadElement, Skip, Encode, At, Next, GetType, TypeOf, TypeCode, Skippable, TagAllowed, Tag.Number;
    NextIsOn(t, s, e);
    WellFormedIsSkippable(e, s.containerType, s.containerType, false, s.implicitProfile);
    ElementIsRead(s, e, false);
    TypeIsReported(On(s, e), e);
  }

  /** A string is copied whole or not at all, into a buffer of at least its length. */
  lemma StringIsCopied(t: Reader, data: seq<Byte>, bufSize: nat)
    requires t.Valid() && HasLength(t.ElementType()) && t.lenOrVal == |data| < 0x1_0000_0000
    requires At(t.input, t.pos, data)
    ensures GetBytes(t, bufSize) ==
            if bufSize < |data| then (BufferTooSmall, [], t)
            else (NoError, data, t.(pos := t.pos + |data|, lenOrVal := 0))
  {
  }

  lemma NextIsOnClosing(t: Reader, s: Reader, closing: Tag)
    requires t.Valid() && Skip(t) == (NoError, s) && At(s.input, s.pos, Head(closing, END_OF_CONTAINER, 0))
    requires ClosingOk(closing, s.implicitProfile) && s.containerType != NOT_SPECIFIED
    ensures OnClosing(s, closing).Valid() && Next(t) == (EndOfTlv, OnClosing(s, closing))
    ensures OnClosing(s, closing).ElementType() == END_OF_CONTAINER
  {
    hide ReadElement, Skip, At, Head;
    ClosingIsRead(s, closing);
  }

  // ---- Decoding undoes encoding ----

  /** Where the walk leaves the reader: string data read, and a container left behind. */
  function Visited(s: Reader, e: Element): Reader {
    match e
    case Leaf(_, _) => On(s, e)
    case Text(_, _, _, _, data) => On(s, e).(pos := s.pos + |Encode(e)|, lenOrVal := 0)
    case Container(_, _, _, _) => Past(s, e)
  }

  lemma TagIsReported(e: Element, c: int, s: Reader)
    requires WellFormed(e, c, s.implicitProfile) && TypeCode(e) < 32
    ensures ReportedTag(On(s, e)) == e.tag
  {
    hide HeadOf, TypeCode, FieldValue;
    TagRecovered(e.tag, s.implicitProfile);
    assert On(s, e).control / 32 == e.tag.Form();
  }

  /** Two's complement of width 1, 2, 4 or 8, sign-extended by Get, is the encoded number. */
  lemma SignedIsRead(s: Reader, tag: Tag, w: nat, n: int)
    requires ValueOk(Signed(w, n))
    requires s.control < 0x100 && s.ElementType() == WidthCode(w) && s.lenOrVal == FieldValue(Leaf(tag, Signed(w, n)))
    ensures GetI64(s) == (NoError, n)
  {
    Widths();
  }

  lemma LeafIsRead(s: Reader, e: Element)
    requires s.Valid() && At(s.input, s.pos, Encode(e)) && !e.Container?
    requires WellFormed(e, s.containerType, s.implicitProfile)
    ensures On(s, e).Valid() && On(s, e).control < 0x100
    ensures ReadLeaf(On(s, e)) == Ok((e, Visited(s, e)))
  {
    hide HeadOf, ReadElement, At, SkipData, RecoverTag, VerifyElement, Encode, TagAllowed, Skippable, GetBytes,
         GetI64, SignExtend, WriteLE, ReadLE;
    WellFormedIsSkippable(e, s.containerType, s.containerType, false, s.implicitProfile);
    ElementIsRead(s, e, false);
    FieldFits(e, s.containerType, false, s.implicitProfile);
    HeadStands(s, e);
    TagIsReported(e, s.containerType, s);
    if e.Leaf? {
      hide ReadLeaf;
      ScalarIsRead(On(s, e), e);
    } else {
      TextIsRead(s, e);
    }
  }

  /** The getters on a primitive whose head has been read. */
  lemma ScalarIsRead(t: Reader, e: Element)
    requires t.Valid() && t.control < 0x100 && e.Leaf? && ValueOk(e.value)
    requires t.ElementType() == TypeCode(e) && t.lenOrVal == FieldValue(e) && ReportedTag(t) == e.tag
    ensures ReadLeaf(t) == Ok((e, t))
  {
    hide GetI64, ReportedTag, ReadLE, WriteLE;
    Widths();
    if e.value.Signed? {
      SignedIsRead(t, e.tag, e.value.width, e.value.number);
    }
  }

  lemma TextIsRead(s: Reader, e: Element)
    requires s.Valid() && At(s.input, s.pos, Encode(e)) && e.Text?
    requires WellFormed(e, s.containerType, s.implicitProfile)
    ensures On(s, e).Valid() && GetLength(On(s, e)) == |e.data|
    ensures GetBytes(On(s, e), |e.data|) == (NoError, e.data, Visited(s, e))
  {
    hide HeadOf, ReadElement, SkipData, VerifyElement, TypeCode;
    WellFormedIsSkippable(e, s.containerType, s.containerType, false, s.implicitProfile);
    ElementIsRead(s, e, false);
    FieldFits(e, s.containerType, false, s.implicitProfile);
    HeadStands(s, e);
  }

  lemma SkipBetween(s: Reader)
    requires s.Between()
    ensures Skip(s) == (NoError, s)
  {
  }

  lemma SkipAfterVisit(s: Reader, e: Element)
    requires s.Valid() && At(s.input, s.pos, Encode(e)) && WellFormed(e, s.containerType, s.implicitProfile)
    ensures Visited(s, e).Valid() && Skip(Visited(s, e)) == (NoError, Past(s, e))
  {
    hide HeadOf, ReadElement, Encode, TypeCode, WellFormed, At, SkipToEndOfContainer;
    WellFormedIsSkippable(e, s.containerType, s.containerType, false, s.implicitProfile);
    SkipIsPast(s, e);
    WellFormedIsSkippable(e, s.containerType, s.containerType, false, s.implicitProfile);
    ElementIsRead(s, e, false);
    FieldFits(e, s.containerType, false, s.implicitProfile);
  }

  /** The walk rebuilds an element from its encoding. */
  lemma {:induction false} DecodeElement(s: Reader, e: Element)
    requires s.Valid() && At(s.input, s.pos, Encode(e)) && WellFormed(e, s.containerType, s.implicitProfile)
    ensures On(s, e).Valid() && On(s, e).control < 0x100
    ensures Walk(On(s, e)) == Ok((e, Visited(s, e)))
    decreases e, 1
  {
    hide HeadOf, Head, ReadElement, SkipToEndOfContainer, RecoverTag, Next, Skip, ReadLeaf, TypeCode, FieldValue,
         EncodeAll, Encode, Skippable, TagAllowed;
    WellFormedIsSkippable(e, s.containerType, s.containerType, false, s.implicitProfile);
    ElementIsRead(s, e, false);
    FieldFits(e, s.containerType, false, s.implicitProfile);
    HeadStands(s, e);
    if e.Container? {
      var inside := EnterContainer(On(s, e)).1;
      SkipBetween(inside);
      PastAllPosition(inside, e.members);
      var end := PastAll(inside, e.members);
      SkipBetween(end);
      NextIsOnClosing(end, end, e.closing);
      DecodeMembers(inside, inside, e.members, OnClosing(end, e.closing));
      TagIsReported(e, s.containerType, s);
      ClosingIsReported(end, e.closing);
      ExitFromClosing(OnClosing(end, e.closing), s.containerType);
    } else {
      LeafIsRead(s, e);
    }
  }

  lemma ClosingIsReported(s: Reader, closing: Tag)
    requires ClosingOk(closing, s.implicitProfile)
    ensures ReportedTag(OnClosing(s, closing)) == closing
  {
    TagRecovered(closing, s.implicitProfile);
  }

  lemma ExitFromClosing(s: Reader, outer: int)
    requires s.Valid() && s.ElementType() == END_OF_CONTAINER
    ensures ExitContainer(s, outer) == (NoError, s.Clear().(containerOpen := false, containerType := outer))
  {
  }

  /** Calling Next until the end rebuilds the members of a container, or of the whole input. */
  lemma {:induction false} DecodeMembers(t: Reader, s: Reader, es: seq<Element>, last: Reader)
    requires t.Valid() && Skip(t) == (NoError, s)
    requires At(s.input, s.pos, EncodeAll(es)) && AllWellFormed(es, s.containerType, s.implicitProfile)
    requires PastAll(s, es).Valid() && Next(PastAll(s, es)) == (EndOfTlv, last)
    ensures WalkMembers(t) == Ok((es, last))
    decreases es, 0
  {
    hide HeadOf, ReadElement, Encode, At, Skip, Walk, WellFormed;
    if es == [] {
      SkipBetween(s);
    } else {
      var e := es[0];
      AtConcat(s.input, s.pos, Encode(e), EncodeAll(es[1..]));
      NextIsOn(t, s, e);
      DecodeElement(s, e);
      SkipAfterVisit(s, e);
      DecodeMembers(Visited(s, e), Past(s, e), es[1..], last);
      assert es == [e] + es[1..];
    }
  }

  // ---- Encoding undoes decoding ----

  ghost predicate Rebuilds(s: Reader, e: Element, c: int)
    requires s.Valid()
  {
    && WellFormed(e, c, s.implicitProfile) && !e.Container?
    && e.tag == ReportedTag(s)
    && TypeCode(e) == s.ElementType() && FieldValue(e) == s.lenOrVal
    && (e.Text? ==> At(s.input, s.pos, e.data))
  }

  lemma ValueIsRebuilt(s: Reader, c: int)
    requires s.Valid() && s.control < 0x100 && ReadLeaf(s).Ok? && s.ElementType() < STRUCTURE
    requires s.lenOrVal < Pow256(FieldBytes(s.ElementType()))
    requires ReportedTag(s).Ok() && TagAllowed(ReportedTag(s).Number(s.implicitProfile), c)
    ensures Rebuilds(s, ReadLeaf(s).value.0, c)
    ensures var (e, t) := ReadLeaf(s).value;
            t == if e.Text? then s.(pos := s.pos + |e.data|, lenOrVal := 0) else s
  {
    hide RecoverTag, TagAllowed;
    Widths();
    if HasLength(s.ElementType()) {
      TextIsRebuilt(s);
    } else if s.ElementType() <= 0x03 {
      SignedIsRebuilt(s);
    }
  }

  lemma TextIsRebuilt(s: Reader)
    requires s.Valid() && HasLength(s.ElementType()) && GetBytes(s, GetLength(s)).0 == NoError
    ensures At(s.input, s.pos, GetBytes(s, GetLength(s)).1)
    ensures |GetBytes(s, GetLength(s)).1| == s.lenOrVal
    ensures GetBytes(s, GetLength(s)).2 == s.(pos := s.pos + s.lenOrVal, lenOrVal := 0)
  {
  }

  lemma SignedIsRebuilt(s: Reader)
    requires s.Valid() && s.control < 0x100 && s.ElementType() <= 0x03
    requires s.lenOrVal < Pow256(FieldBytes(s.ElementType()))
    ensures var v := Signed(FieldBytes(s.ElementType()), GetI64(s).1);
            && ValueOk(v)
            && forall tag :: TypeCode(Leaf(tag, v)) == s.ElementType() && FieldValue(Leaf(tag, v)) == s.lenOrVal
  {
    Widths();
  }

  /** `u` was reached by reading a head, and `e` has just that head. */
  ghost predicate ReadAs(s: Reader, u: Reader, e: Element) {
    && u.control < 0x100
    && At(s.input, s.pos, HeadOf(e))
    && e.tag.Number(s.implicitProfile) == u.tag && e.tag.Form() == u.control / 32
    && TypeCode(e) == u.control % 32 && FieldValue(e) == u.lenOrVal
    && u == s.(pos := s.pos + |HeadOf(e)|, control := u.control, tag := u.tag, lenOrVal := u.lenOrVal)
  }

  lemma LeafStands(s: Reader, u: Reader, e: Element)
    requires ReadAs(s, u, e) && !e.Container?
    requires e.Text? ==> At(u.input, u.pos, e.data)
    ensures At(s.input, s.pos, Encode(e))
  {
    hide HeadOf, At;
    if e.Text? {
      AtConcat(s.input, s.pos, HeadOf(e), e.data);
    }
  }

  lemma ContainerStands(s: Reader, u: Reader, e: Element)
    requires ReadAs(s, u, e) && e.Container?
    requires At(u.input, u.pos, EncodeAll(e.members))
    requires At(u.input, u.pos + |EncodeAll(e.members)|, Head(e.closing, END_OF_CONTAINER, 0))
    ensures At(s.input, s.pos, Encode(e))
    ensures s.pos + |Encode(e)| == u.pos + |EncodeAll(e.members)| + |Head(e.closing, END_OF_CONTAINER, 0)|
  {
    hide HeadOf, At, Head, EncodeAll;
    AtConcat(s.input, u.pos, EncodeAll(e.members), Head(e.closing, END_OF_CONTAINER, 0));
    AtConcat(s.input, s.pos, HeadOf(e), EncodeAll(e.members) + Head(e.closing, END_OF_CONTAINER, 0));
  }

  /** Without further input, Next reports the end and the container cannot be left. */
  lemma ExhaustedInput(s: Reader)
    requires s.Between() && ReadElement(s).0 == EndOfTlv
    ensures s.pos == |s.input| && ReadElement(s).1 == s && SkipToEndOfContainer(s).0 == EndOfTlv
  {
    hide AfterHead;
    assert s.pos == |s.input|;
  }

  /** A container can only be left from a closing byte that verified. */
  lemma ClosingIsHead(end: Reader, last: Reader)
    requires end.Between() && Next(end) == (EndOfTlv, last) && SkipToEndOfContainer(last).0 == NoError
    ensures last.Valid() && last.ElementType() == END_OF_CONTAINER
    ensures var closing := ReportedTag(last);
            && ClosingOk(closing, end.implicitProfile)
            && At(end.input, end.pos, Head(closing, END_OF_CONTAINER, 0))
            && last == OnClosing(end, closing)
  {
    hide Head, RecoverTag, ReadElement, SkipToEndOfContainer, At;
    if ReadElement(end).0 == EndOfTlv {
      ExhaustedInput(end);
    } else {
      ReadHeadIsHead(end);
      assert Pow256(FieldBytes(END_OF_CONTAINER)) == 1;
    }
  }

  /** Whatever the walk returns, its encoding is exactly what was read. */
  lemma {:induction false} EncodeElement(t: Reader, s: Reader)
    requires t.Valid() && Skip(t) == (NoError, s) && Next(t).0 == NoError
    requires Next(t).1.control < 0x100 && Walk(Next(t).1).Ok?
    ensures var (e, after) := Walk(Next(t).1).value;
            && WellFormed(e, s.containerType, s.implicitProfile)
            && At(s.input, s.pos, Encode(e))
            && Next(t).1 == On(s, e) && after == Visited(s, e)
    decreases |s.input| - s.pos, 1
  {
    hide HeadOf, Head, RecoverTag, Skip, ReadElement, SkipToEndOfContainer, ReadLeaf, At, HeadBytes, Encode, Next;
    NextIsVerified(t, s);
    var u := Next(t).1;
    var (e, after) := Walk(u).value;
    if IsContainerType(u.ElementType()) {
      var inside := EnterContainer(u).1;
      SkipBetween(inside);
      EncodeMembers(inside, inside);
      var (members, last) := WalkMembers(inside).value;
      PastAllPosition(inside, members);
      ClosingIsHead(PastAll(inside, members), last);
      VerifiedReadsAs(s, u, e);
      ContainerStands(s, u, e);
      ExitFromClosing(last, s.containerType);
    } else {
      LeafWalked(s, u);
    }
  }

  /** `u` stands on an element whose head, read at `s`, passed VerifyElement. */
  ghost predicate Verified(s: Reader, u: Reader) {
    var tag := ReportedTag(u);
    && u.control < 0x100 && u.ElementType() < END_OF_CONTAINER && s.pos < u.pos
    && tag.Ok() && tag.Number(s.implicitProfile) == u.tag && tag.Form() == u.control / 32
    && TagAllowed(u.tag, s.containerType)
    && u.lenOrVal < Pow256(FieldBytes(u.ElementType()))
    && At(s.input, s.pos, Head(tag, u.ElementType(), u.lenOrVal))
    && u == s.(pos := s.pos + |Head(tag, u.ElementType(), u.lenOrVal)|, control := u.control,
               tag := u.tag, lenOrVal := u.lenOrVal)
  }

  lemma ReadIsVerified(s: Reader)
    requires s.Valid() && ReadElement(s).0 == NoError && ReadElement(s).1.ElementType() != END_OF_CONTAINER
    ensures Verified(s, ReadElement(s).1)
  {
    hide Head, RecoverTag, At, ReadElement, Pow256, FieldBytes, TagAllowed;
    ReadHeadIsHead(s);
  }

  lemma NextIsVerified(t: Reader, s: Reader)
    requires t.Valid() && Skip(t) == (NoError, s) && Next(t).0 == NoError
    ensures Verified(s, Next(t).1)
  {
    hide Skip, ReadElement, Verified;
    ReadIsVerified(s);
  }

  lemma VerifiedReadsAs(s: Reader, u: Reader, e: Element)
    requires Verified(s, u)
    requires e.tag == ReportedTag(u) && TypeCode(e) == u.ElementType() && FieldValue(e) == u.lenOrVal
    ensures ReadAs(s, u, e) && u == On(s, e)
  {
    hide Head, TypeCode, FieldValue, RecoverTag, At, Pow256, FieldBytes, TagAllowed;
  }

  lemma LeafWalked(s: Reader, u: Reader)
    requires s.Valid() && u.Valid() && Verified(s, u) && !IsContainerType(u.ElementType()) && ReadLeaf(u).Ok?
    ensures var (e, after) := ReadLeaf(u).value;
            && WellFormed(e, s.containerType, s.implicitProfile) && At(s.input, s.pos, Encode(e))
            && u == On(s, e) && after == Visited(s, e)
  {
    hide RecoverTag, At, Head, TagAllowed, ReadLeaf, FieldValue, TypeCode;
    ValueIsRebuilt(u, s.containerType);
    var e := ReadLeaf(u).value.0;
    VerifiedReadsAs(s, u, e);
    LeafStands(s, u, e);
  }

  lemma NothingStands(input: seq<Byte>, pos: nat)
    requires pos <= |input|
    ensures At(input, pos, [])
  {
  }

  lemma {:induction false} EncodeMembers(t: Reader, s: Reader)
    requires t.Valid() && Skip(t) == (NoError, s) && WalkMembers(t).Ok?
    ensures var (es, last) := WalkMembers(t).value;
            && AllWellFormed(es, s.containerType, s.implicitProfile)
            && At(s.input, s.pos, EncodeAll(es))
            && PastAll(s, es).Between() && Next(PastAll(s, es)) == (EndOfTlv, last)
    decreases |s.input| - s.pos, 2
  {
    hide ReadElement, Skip, Walk, Encode, WellFormed, RecoverTag, Pow256, FieldBytes, Head, TagAllowed, HeadOf, Visited,
         At, On;
    if Next(t).0 == EndOfTlv {
      SkipBetween(s);
      NothingStands(s.input, s.pos);
    } else {
      NextIsVerified(t, s);
      EncodeElement(t, s);
      var (e, after) := Walk(Next(t).1).value;
      SkipAfterVisit(s, e);
      EncodeMembers(after, Past(s, e));
      var (rest, _) := WalkMembers(after).value;
      AtConcat(s.input, s.pos, Encode(e), EncodeAll(rest));
      assert ([e] + rest)[1..] == rest;
    }
  }
}
