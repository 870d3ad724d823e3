/** AddGenericTLVItem prints the element tree, pre-order, one line per element and per closing. */
module Rendering {
  import opened Bytes
  import opened TlvFormat
  import opened ReaderSpec
  import opened Text
  import opened Skipping
  import opened RoundTrip
  import opened DissectorSpec
  import opened ElementRanges

  /** The text of a value in the tree. */
  function Shown(e: Element, fmt: Format): string {
    match e
    case Leaf(_, Signed(_, n)) => Decimal(n)
    case Leaf(_, Unsigned(_, n)) => Decimal(n)
    case Leaf(_, Boolean(b)) => if b then "true" else "false"
    case Leaf(_, Float(w, bits)) => FloatText(fmt.float(w, bits))
    case Leaf(_, Null) => "null"
    case Text(_, true, _, _, data) => CStr(fmt.escape(data))
    case Text(_, false, _, _, data) => HexDump(data)
    case Container(_, kind, _, _) => if kind == STRUCTURE then "{" else if kind == ARRAY then "[" else "<"
  }

  function Indent(n: nat): string { seq(4 * n, _ => ' ') }

  /** The text of a tag, with the implicit profile of the reader. */
  function Label(t: Tag, profile: nat): string {
    match t
    case Anonymous => ""
    case Context(n) => Decimal(n) + " = "
    case Common16(_) => "00000000:d = "
    case Common32(_) => "00000000:d = "
    case Implicit16(_) => ImplicitLabel(profile)
    case Implicit32(_) => ImplicitLabel(profile)
    case Full48(v, p, n) => FullLabel(v, p, n)
    case Full64(v, p, n) => FullLabel(v, p, n)
  }

  function ImplicitLabel(profile: nat): string {
    if profile == PROFILE_NOT_SPECIFIED then "" else Hex(profile % 0x1_0000_0000, 8, 'A') + ":d = "
  }

  /** Vendor and profile 0xFFFF are the mark of context tags. */
  function FullLabel(v: nat, p: nat, n: nat): string {
    if v == 0xFFFF && p == 0xFFFF then (if n < 0x100 then Decimal(n) + " = " else "")
    else Hex(v, 4, 'A') + Hex(p, 4, 'A') + ":d = "
  }

  /** What stands in front of the value. */
  function Margin(t: Tag, profile: nat, suppressTag: bool, suppressHeader: bool, indent: nat): string {
    (if suppressHeader then Indent(indent) else "") + (if suppressTag then "" else Label(t, profile))
  }

  /** The lines of one element whose encoding starts at byte `start` of the message. */
  function Render(e: Element, fmt: Format, profile: nat, suppressTag: bool, suppressHeader: bool,
                  indent: nat, start: int)
    : seq<Item>
    decreases e, 1
  {
    var line := Margin(e.tag, profile, suppressTag, suppressHeader, indent) + Shown(e, fmt);
    var first := Item(line, start, |Encode(e)|, suppressHeader);
    if e.Container? then [first] + RenderBody(e, fmt, profile, indent, start) else [first]
  }

  /** The members, one level deeper, and the closing line of a container. */
  function RenderBody(e: Element, fmt: Format, profile: nat, indent: nat, start: int): seq<Item>
    requires e.Container?
    decreases e, 0
  {
    RenderAll(e.members, fmt, profile, indent + 1, start + |HeadOf(e)|)
    + [Item(Indent(indent) + (if e.kind == STRUCTURE then "}" else if e.kind == ARRAY then "]" else ">"),
            start, |Encode(e)|, true)]
  }

  function RenderAll(es: seq<Element>, fmt: Format, profile: nat, indent: nat, start: int): seq<Item>
    decreases es, 2
  {
    if es == [] then []
    else Render(es[0], fmt, profile, false, true, indent, start)
         + RenderAll(es[1..], fmt, profile, indent, start + |Encode(es[0])|)
  }

  /** A structure of one member, at the beginning of a message. */
  lemma StructureIsShown(fmt: Format)
    ensures var member := Leaf(Context(7), Unsigned(1, 5));
            Render(Container(Anonymous, STRUCTURE, [member], Anonymous), fmt, PROFILE_NOT_SPECIFIED,
                   false, false, 0, 0)
            == [Item("{", 0, 5, false), Item("    7 = 5", 1, 3, true), Item("}", 0, 5, true)]
  {
    hide Encode, HeadOf, Decimal;
    var member := Leaf(Context(7), Unsigned(1, 5));
    var e := Container(Anonymous, STRUCTURE, [member], Anonymous);
    MemberIsShown(fmt);
    StructureSizes();
    assert e.members[1..] == [] && Indent(0) == "";
    assert RenderAll([member], fmt, PROFILE_NOT_SPECIFIED, 1, 1) == [Item("    7 = 5", 1, 3, true)];
    assert Margin(Anonymous, PROFILE_NOT_SPECIFIED, false, false, 0) + Shown(e, fmt) == "{";
    assert Indent(0) + "}" == "}";
    assert RenderBody(e, fmt, PROFILE_NOT_SPECIFIED, 0, 0) ==
           RenderAll([member], fmt, PROFILE_NOT_SPECIFIED, 1, 1) + [Item("}", 0, 5, true)];
  }

  lemma MemberIsShown(fmt: Format)
    ensures Render(Leaf(Context(7), Unsigned(1, 5)), fmt, PROFILE_NOT_SPECIFIED, false, true, 1, 1) ==
            [Item("    7 = 5", 1, 3, true)]
  {
    hide Encode;
    StructureSizes();
    assert Decimal(7) == "7" && Decimal(5) == "5" && Indent(1) == "    ";
    assert "    " + ("7" + " = ") + "5" == "    7 = 5";
  }

  lemma StructureSizes()
    ensures var member := Leaf(Context(7), Unsigned(1, 5));
            var e := Container(Anonymous, STRUCTURE, [member], Anonymous);
            |Encode(member)| == 3 && |Encode(e)| == 5 && |HeadOf(e)| == 1
  {
    var member := Leaf(Context(7), Unsigned(1, 5));
    assert |WriteLE(7, 1)| == 1 && |WriteLE(5, 1)| == 1;
    assert [member][1..] == [] && EncodeAll([member]) == Encode(member) + EncodeAll([]);
  }

  /** GetDataPtr needs a byte to point to, so an empty byte string must not end the input. */
  predicate DataReachable(s: Reader, e: Element) {
    e.Text? && !e.utf8 && e.data == [] ==> s.pos + |Encode(e)| < |s.input|
  }

  /** An empty byte string adds nothing to the text of its line, so the rest must not be empty. */
  predicate HasLine(s: Reader, e: Element, suppressTag: bool, suppressHeader: bool, indent: nat) {
    e.Text? && !e.utf8 && e.data == [] ==>
      Margin(e.tag, s.implicitProfile, suppressTag, suppressHeader, indent) != ""
  }

  /** Where AddGenericTLVItem leaves the reader: an element's byte string is not read over. */
  function Rendered(s: Reader, e: Element): Reader {
    if e.Text? && !e.utf8 then On(s, e) else Visited(s, e)
  }

  lemma LabelIsPrinted(t: Tag, profile: nat)
    requires t.Ok()
    ensures TagLabel(t.Number(profile)) == Label(t, profile)
  {
    hide Decimal, Hex;
    match t
    case Context(n) => assert t.Number(profile) / 0x1_0000_0000 == 0xFFFF_FFFF;
    case Common16(n) => NoProfile(n);
    case Common32(n) => NoProfile(n);
    case Full48(v, p, n) => FullIsPrinted(v, p, n);
    case Full64(v, p, n) => FullIsPrinted(v, p, n);
    case _ =>
  }

  lemma NoProfile(n: nat)
    requires n < 0x1_0000_0000
    ensures TagLabel(n) == "00000000:d = "
  {
    assert Hex(0, 8, 'A') == "00000000";
  }

  lemma FullIsPrinted(v: nat, p: nat, n: nat)
    requires v < 0x1_0000 && p < 0x1_0000 && n < 0x1_0000_0000
    ensures TagLabel(v * 0x1_0000_0000_0000 + p * 0x1_0000_0000 + n) == FullLabel(v, p, n)
  {
    hide Decimal, Hex;
    var tag := v * 0x1_0000_0000_0000 + p * 0x1_0000_0000 + n;
    assert tag / 0x1_0000_0000 == v * 0x1_0000 + p && tag % 0x1_0000_0000 == n;
    HexInTwo(v, p, 4, 'A');
  }

  lemma MarginIsPrinted(t: Tag, profile: nat, suppressTag: bool, suppressHeader: bool, indent: nat)
    requires t.Ok()
    ensures Prefix(t.Number(profile), suppressTag, suppressHeader, indent) ==
            Margin(t, profile, suppressTag, suppressHeader, indent)
  {
    hide TagLabel, Label, Repeat, Tag.Number, Tag.Ok;
    LabelIsPrinted(t, profile);
    RepeatedBlanks(indent);
  }

  /** A container closes with the bracket it was opened with. */
  lemma BracketsMatch(kind: int, indent: nat)
    ensures Repeat("    ", indent) + CloseChar(kind) ==
            Indent(indent) + (if kind == STRUCTURE then "}" else if kind == ARRAY then "]" else ">")
  {
    RepeatedBlanks(indent);
  }

  lemma ValueIsShown(s: Reader, e: Element, fmt: Format)
    requires s.Valid() && At(s.input, s.pos, Encode(e)) && WellFormed(e, s.containerType, s.implicitProfile)
    ensures On(s, e).Valid()
    ensures e.Container? ==> GetType(On(s, e)) == e.kind
    ensures IsContainerType(GetType(On(s, e))) <==> e.Container?
    ensures ValueText(On(s, e), fmt).0 == if DataReachable(s, e) then NoError else TlvUnderrun
    ensures DataReachable(s, e) ==>
              ValueText(On(s, e), fmt) == (NoError, Shown(e, fmt), if e.Container? then On(s, e) else Rendered(s, e))
  {
    hide HeadOf, ReadElement, Skippable, Encode, TagAllowed;
    WellFormedIsSkippable(e, s.containerType, s.containerType, false, s.implicitProfile);
    ElementIsRead(s, e, false);
    FieldFits(e, s.containerType, false, s.implicitProfile);
    HeadStands(s, e);
    match e
    case Leaf(_, _) => LeafIsShown(s, e, fmt);
    case Text(_, _, _, _, _) => TextIsShown(s, e, fmt);
    case Container(_, _, _, _) =>
  }

  /** The text buffer of an element's line is null exactly without a line. */
  lemma LineIsText(s: Reader, e: Element, suppressTag: bool, suppressHeader: bool, indent: nat)
    requires s.Valid() && At(s.input, s.pos, Encode(e)) && WellFormed(e, s.containerType, s.implicitProfile)
    ensures HasText(On(s, e), suppressTag, suppressHeader, indent) <==>
            HasLine(s, e, suppressTag, suppressHeader, indent)
  {
    hide HeadOf, ReadElement, Skippable, Encode, TagAllowed, Prefix, Margin;
    MarginIsPrinted(e.tag, s.implicitProfile, suppressTag, suppressHeader, indent);
    WellFormedIsSkippable(e, s.containerType, s.containerType, false, s.implicitProfile);
    ElementIsRead(s, e, false);
    FieldFits(e, s.containerType, false, s.implicitProfile);
  }

  lemma LeafIsShown(s: Reader, e: Element, fmt: Format)
    requires s.Valid() && On(s, e).Valid() && On(s, e).control < 0x100
    requires e.Leaf? && ValueOk(e.value) && On(s, e).ElementType() == TypeCode(e)
    ensures ValueText(On(s, e), fmt) == (NoError, Shown(e, fmt), On(s, e))
  {
    hide HeadOf;
    Widths();
    if e.value.Signed? {
      SignedIsRead(On(s, e), e.tag, e.value.width, e.value.number);
    }
  }

  lemma TextIsShown(s: Reader, e: Element, fmt: Format)
    requires s.Valid() && At(s.input, s.pos, Encode(e)) && e.Text?
    requires IsWidth(e.width) && e.length == |e.data| < 0x1_0000_0000
    requires On(s, e).Valid() && On(s, e).control < 0x100 && On(s, e).ElementType() == TypeCode(e)
    requires At(s.input, On(s, e).pos, e.data) && s.pos + |Encode(e)| == On(s, e).pos + |e.data|
    ensures ValueText(On(s, e), fmt).0 == if DataReachable(s, e) then NoError else TlvUnderrun
    ensures DataReachable(s, e) ==> ValueText(On(s, e), fmt) == (NoError, Shown(e, fmt), Rendered(s, e))
  {
    hide HeadOf, Encode, DupString, GetDataPtr;
    StringIsRead(On(s, e), e.data);
  }

  lemma StringIsRead(t: Reader, data: seq<Byte>)
    requires t.Valid() && HasLength(t.ElementType()) && t.lenOrVal == |data| < 0x1_0000_0000
    requires At(t.input, t.pos, data)
    ensures DupString(t) == (NoError, data, t.(pos := t.pos + |data|, lenOrVal := 0))
    ensures GetDataPtr(t) == if t.pos == |t.input| then (TlvUnderrun, []) else (NoError, data)
  {
  }

  /** The reader after rendering is still inside or just behind the element. */
  lemma RenderedEndsElement(s: Reader, e: Element)
    requires s.Valid() && At(s.input, s.pos, Encode(e)) && WellFormed(e, s.containerType, s.implicitProfile)
    ensures Rendered(s, e).Valid() && Skip(Rendered(s, e)) == (NoError, Past(s, e))
  {
    hide Skip, HeadOf, Encode, WellFormed;
    SkipAfterVisit(s, e);
    WellFormedIsSkippable(e, s.containerType, s.containerType, false, s.implicitProfile);
    SkipIsPast(s, e);
  }

  /**
    On any well-formed element whose line is not empty and whose data is there to point to,
    AddGenericTLVItem adds exactly the element's rendering and consumes exactly the element;
    stack and current range are as before.
   */
  lemma {:induction false} ItemIsRendered(
    d: Dissector, s: Reader, e: Element, fmt: Format, suppressTag: bool, suppressHeader: bool, indent: nat)
    requires s.Valid() && At(s.input, s.pos, Encode(e)) && WellFormed(e, s.containerType, s.implicitProfile)
    requires Marks(d, s, e) && DataReachable(s, e) && HasLine(s, e, suppressTag, suppressHeader, indent)
    ensures d.reader.Valid()
    ensures var (err, d') := AddGenericItem(d, fmt, suppressTag, suppressHeader, indent);
            && err == NoError
            && d' == d.(reader := Rendered(s, e), lastItem := d'.lastItem,
                        items := d.items + Render(e, fmt, s.implicitProfile, suppressTag, suppressHeader, indent,
                                                  s.pos + d.baseOffset))
            && Skip(d'.reader) == (NoError, Past(s, e))
    decreases e, 1
  {
    hide Skip, HeadOf, Encode, EncodeAll, WellFormed, ValueText, AddContainerBody, At, Shown, Prefix, Margin, HasText,
         HasLine;
    TagIsOk(s, e);
    MarginIsPrinted(e.tag, s.implicitProfile, suppressTag, suppressHeader, indent);
    ValueIsShown(s, e, fmt);
    LineIsText(s, e, suppressTag, suppressHeader, indent);
    RenderedEndsElement(s, e);
    if e.Container? {
      var line := Margin(e.tag, s.implicitProfile, suppressTag, suppressHeader, indent) + Shown(e, fmt);
      var d' := AddString(d, line, suppressHeader);
      BodyIsRendered(d', s, e, fmt, indent);
      var first := Item(line, s.pos + d.baseOffset, |Encode(e)|, suppressHeader);
      var body := RenderBody(e, fmt, s.implicitProfile, indent, s.pos + d.baseOffset);
      assert (d.items + [first]) + body == d.items + ([first] + body);
    }
  }

  /** The members' lines and the closing line, once the opening line is out. */
  lemma {:induction false} BodyIsRendered(d: Dissector, s: Reader, e: Element, fmt: Format, indent: nat)
    requires s.Valid() && At(s.input, s.pos, Encode(e)) && WellFormed(e, s.containerType, s.implicitProfile)
    requires Marks(d, s, e) && e.Container?
    ensures d.reader.Valid()
    ensures var (err, d') := AddContainerBody(d, fmt, indent, e.kind);
            && err == NoError
            && d' == d.(reader := Past(s, e), lastItem := d'.lastItem,
                        items := d.items + RenderBody(e, fmt, s.implicitProfile, indent, s.pos + d.baseOffset))
    decreases e, 0
  {
    hide Skip, HeadOf, Head, Encode, EncodeAll, AddMemberItems, DissectorSpec.EnterContainer,
         DissectorSpec.ExitContainer;
    hide At, WellFormed, AllWellFormed, Marks, ClosingOk, Past, PastAll, OnClosing, RenderAll, Repeat, CloseChar,
         AddString;
    EnterOnHead(d, s, e);
    var d3 := DissectorSpec.EnterContainer(d).1;
    MembersAreRendered(d3, d3.reader, e.members, e.closing, fmt, indent);
    var d4 := AddMemberItems(d3, fmt, indent).1;
    ClosingIsPast(s, e, d3.reader);
    var middle := RenderAll(e.members, fmt, s.implicitProfile, indent + 1, d3.reader.pos + d.baseOffset);
    BracketsMatch(e.kind, indent);
    var text := Repeat("    ", indent) + CloseChar(e.kind);
    BodyEnds(d, d4, s, e, middle, text);
    var last := Item(text, s.pos + d.baseOffset, |Encode(e)|, true);
    assert RenderBody(e, fmt, s.implicitProfile, indent, s.pos + d.baseOffset) == middle + [last];
  }

  lemma ClosingIsPast(s: Reader, e: Element, t: Reader)
    requires e.Container? && t == t.Clear() && t.input == s.input && t.maxLen == s.maxLen &&
        t.implicitProfile == s.implicitProfile
    requires t.pos + |EncodeAll(e.members)| + |Head(e.closing, END_OF_CONTAINER, 0)| == s.pos + |Encode(e)|
    ensures var u := OnClosing(PastAll(t, e.members), e.closing).Clear();
            u.(containerOpen := false, containerType := s.containerType) == Past(s, e)
  {
    hide Head, Encode, EncodeAll;
    PastAllPosition(t, e.members);
  }

  /** Leaving the container and adding its closing line. */
  lemma BodyEnds(d: Dissector, d4: Dissector, s: Reader, e: Element, middle: seq<Item>, text: string)
    requires e.Container? && d.elemStart == s.pos && d.elemLen == |Encode(e)|
    requires d4.reader.Valid() && d4.reader.ElementType() == END_OF_CONTAINER
    requires d4.reader.Clear().(containerOpen := false, containerType := s.containerType) == Past(s, e)
    requires d4.stack == d.stack + [Frame(s.containerType, d.lastItem, d.elemStart, d.elemLen)]
    requires d4.items == d.items + middle && d4.baseOffset == d.baseOffset
    ensures DissectorSpec.ExitContainer(d4).0 == NoError
    ensures var d5 := AddString(DissectorSpec.ExitContainer(d4).1, text, true);
            d5 == d.(reader := Past(s, e), lastItem := d5.lastItem,
                     items := d.items + (middle + [Item(text, s.pos + d.baseOffset, |Encode(e)|, true)]))
  {
    hide Encode, DissectorSpec.ExitContainer, Past;
    LeaveFromClosing(d4, d.stack, Frame(s.containerType, d.lastItem, d.elemStart, d.elemLen));
    var last := Item(text, s.pos + d.baseOffset, |Encode(e)|, true);
    assert (d.items + middle) + [last] == d.items + (middle + [last]);
  }

  /** Entering a container from its head: the reader is between the head and the members. */
  lemma EnterOnHead(d: Dissector, s: Reader, e: Element)
    requires s.Valid() && At(s.input, s.pos, Encode(e)) && WellFormed(e, s.containerType, s.implicitProfile)
    requires Marks(d, s, e) && e.Container?
    ensures d.reader.Valid() && d.elemStart == s.pos && d.elemLen == |Encode(e)|
    ensures var (err, d3) := DissectorSpec.EnterContainer(d);
            var t := d3.reader;
            && err == NoError && d3 == PushContainer(d.(reader := t), s.containerType)
            && t.Valid() && Skip(t) == (NoError, t) && t.containerType == e.kind && IsContainerType(e.kind)
            && t == t.Clear() && t.input == s.input && t.maxLen == s.maxLen && t.implicitProfile == s.implicitProfile
            && t.pos == s.pos + |HeadOf(e)|
            && t.pos + |EncodeAll(e.members)| + |Head(e.closing, END_OF_CONTAINER, 0)| == s.pos + |Encode(e)|
            && AllWellFormed(e.members, e.kind, s.implicitProfile) && ClosingOk(e.closing, s.implicitProfile)
            && At(t.input, t.pos, EncodeAll(e.members) + Head(e.closing, END_OF_CONTAINER, 0))
  {
    hide Skip, HeadOf, Head, Encode, EncodeAll, At, TagAllowed, TypeCode, Skippable;
    WellFormedIsSkippable(e, s.containerType, s.containerType, false, s.implicitProfile);
    ElementIsRead(s, e, false);
    FieldFits(e, s.containerType, false, s.implicitProfile);
    HeadStands(s, e);
    var d3 := DissectorSpec.EnterContainer(d).1;
    AtConcat(s.input, d3.reader.pos, EncodeAll(e.members), Head(e.closing, END_OF_CONTAINER, 0));
    SkipBetween(d3.reader);
  }

  lemma LeaveFromClosing(d: Dissector, stack: seq<Frame>, top: Frame)
    requires d.reader.Valid() && d.reader.ElementType() == END_OF_CONTAINER && d.stack == stack + [top]
    ensures DissectorSpec.ExitContainer(d) ==
            (NoError, d.(stack := stack, lastItem := top.item, elemStart := top.elemStart, elemLen := top.elemLen,
                         reader := d.reader.Clear().(containerOpen := false, containerType := top.containerType)))
  {
    ExitFromClosing(d.reader, top.containerType);
    assert d.stack[..|d.stack| - 1] == stack;
  }

  lemma {:induction false} MembersAreRendered(
    d: Dissector, s: Reader, es: seq<Element>, closing: Tag, fmt: Format, indent: nat)
    requires d.reader.Valid() && Skip(d.reader) == (NoError, s)
    requires IsContainerType(s.containerType) && AllWellFormed(es, s.containerType, s.implicitProfile)
    requires ClosingOk(closing, s.implicitProfile)
    requires At(s.input, s.pos, EncodeAll(es) + Head(closing, END_OF_CONTAINER, 0))
    ensures var (err, d') := AddMemberItems(d, fmt, indent);
            && err == NoError
            && d'.items == d.items + RenderAll(es, fmt, s.implicitProfile, indent + 1, s.pos + d.baseOffset)
            && d'.stack == d.stack && d'.baseOffset == d.baseOffset
            && d'.reader == OnClosing(PastAll(s, es), closing) && d'.reader.ElementType() == END_OF_CONTAINER
    decreases es, 2
  {
    hide Skip, ReadElement, HeadOf, Head, Encode, WellFormed, At, AddGenericItem, Render, DissectorSpec.Next,
         Rendered, Past, ClosingOk, HasLine;
    AtConcat(s.input, s.pos, EncodeAll(es), Head(closing, END_OF_CONTAINER, 0));
    if es == [] {
      NextIsEnd(d, s, closing);
    } else {
      var e := es[0];
      AtConcat(s.input, s.pos, Encode(e), EncodeAll(es[1..]));
      AtConcat(s.input, s.pos + |Encode(e)|, EncodeAll(es[1..]), Head(closing, END_OF_CONTAINER, 0));
      MarksWellFormed(d, s, e);
      MoreFollows(s, e, EncodeAll(es[1..]), closing);
      MembersHaveLines(s, e, indent);
      var d1 := DissectorSpec.Next(d).1;
      ItemIsRendered(d1, s, e, fmt, false, true, indent + 1);
      var d2 := AddGenericItem(d1, fmt, false, true, indent + 1).1;
      PastPosition(s, e);
      MembersAreRendered(d2, Past(s, e), es[1..], closing, fmt, indent);
    }
  }

  lemma MoreFollows(s: Reader, e: Element, rest: seq<Byte>, closing: Tag)
    requires At(s.input, s.pos + |Encode(e)|, rest + Head(closing, END_OF_CONTAINER, 0))
    ensures DataReachable(s, e)
  {
    hide Encode;
  }

  lemma NextIsEnd(d: Dissector, s: Reader, closing: Tag)
    requires d.reader.Valid() && Skip(d.reader) == (NoError, s)
    requires At(s.input, s.pos, Head(closing, END_OF_CONTAINER, 0))
    requires ClosingOk(closing, s.implicitProfile) && s.containerType != NOT_SPECIFIED
    ensures DissectorSpec.Next(d) ==
            (EndOfTlv, d.(lastItem := NO_ITEM, reader := OnClosing(s, closing), elemStart := s.pos))
    ensures OnClosing(s, closing).ElementType() == END_OF_CONTAINER
  {
    hide Skip, ReaderSpec.Next, Head, At;
    SkipBetween(s);
    NextIsOnClosing(s, s, closing);
  }

  /**
    AddGenericTLVItem fails on a well-formed element in two cases, both empty byte strings:
    the input ends with it, or its line has neither indentation nor tag.
   */
  lemma GenericItemOutcome(
    d: Dissector, s: Reader, e: Element, fmt: Format, suppressTag: bool, suppressHeader: bool, indent: nat)
    requires s.Valid() && At(s.input, s.pos, Encode(e)) && WellFormed(e, s.containerType, s.implicitProfile)
    requires Marks(d, s, e)
    ensures d.reader.Valid()
    ensures AddGenericItem(d, fmt, suppressTag, suppressHeader, indent).0 ==
            if !DataReachable(s, e) then TlvUnderrun
            else if !HasLine(s, e, suppressTag, suppressHeader, indent) then NullBuffer
            else NoError
  {
    hide HeadOf, Encode, WellFormed, ValueText, AddContainerBody, At, HasText, HasLine, DataReachable, Marks;
    ReaderIsOn(d, s, e);
    ValueIsShown(s, e, fmt);
    LineIsText(s, e, suppressTag, suppressHeader, indent);
    if DataReachable(s, e) && HasLine(s, e, suppressTag, suppressHeader, indent) {
      ItemIsRendered(d, s, e, fmt, suppressTag, suppressHeader, indent);
    } else {
      OnlyStringsFail(s, e, suppressTag, suppressHeader, indent);
    }
  }

  lemma TagIsOk(s: Reader, e: Element)
    requires WellFormed(e, s.containerType, s.implicitProfile)
    ensures e.tag.Ok()
  {
  }

  lemma ReaderIsOn(d: Dissector, s: Reader, e: Element)
    requires Marks(d, s, e)
    ensures d.reader == On(s, e)
  {
  }

  lemma OnlyStringsFail(s: Reader, e: Element, suppressTag: bool, suppressHeader: bool, indent: nat)
    requires !DataReachable(s, e) || !HasLine(s, e, suppressTag, suppressHeader, indent)
    ensures !e.Container?
  {
  }

  /** Tags nothing is printed for. */
  predicate NoLabel(t: Tag, profile: nat) {
    || t.Anonymous?
    || ((t.Implicit16? || t.Implicit32?) && profile == PROFILE_NOT_SPECIFIED)
    || ((t.Full48? || t.Full64?) && t.vendor == 0xFFFF && t.profile == 0xFFFF && t.num >= 0x100)
  }

  /** When a line has neither indentation nor tag. */
  lemma MarginIsEmpty(t: Tag, profile: nat, suppressTag: bool, suppressHeader: bool, indent: nat)
    ensures Margin(t, profile, suppressTag, suppressHeader, indent) == "" <==>
            (suppressHeader ==> indent == 0) && (suppressTag || NoLabel(t, profile))
  {
    hide Decimal, Hex;
  }

  /** The members of a container always have indented lines. */
  lemma MembersHaveLines(s: Reader, e: Element, indent: nat)
    ensures HasLine(s, e, false, true, indent + 1)
  {
    MarginIsEmpty(e.tag, s.implicitProfile, false, true, indent + 1);
  }

  /** An untagged empty byte string. */
  const EMPTY := Text(Anonymous, false, 1, 0, [])

  /** A new dissector over `input`. */
  function Fresh(input: seq<Byte>): Dissector
    requires |input| < 0x1_0000_0000
  {
    Dissector(Init(input), 0, 0, 0, NO_ITEM, [], [])
  }

  lemma EmptyIsEncoded()
    ensures Encode(EMPTY) == [0x10, 0x00]
    ensures WellFormed(EMPTY, NOT_SPECIFIED, PROFILE_NOT_SPECIFIED) && WellFormed(EMPTY, ARRAY, PROFILE_NOT_SPECIFIED)
  {
    assert WriteLE(0, 1) == [0];
    assert HeadOf(EMPTY) == [0x10, 0x00];
    assert HeadOf(EMPTY) + [] == HeadOf(EMPTY);
  }

  /** The first case: nothing follows the string. */
  lemma LastEmptyStringFails(fmt: Format, suppressTag: bool)
    ensures var (err, d) := DissectorSpec.Next(Fresh([0x10, 0x00]));
            err == NoError && AddGenericItem(d, fmt, suppressTag, false, 0).0 == TlvUnderrun
  {
    hide WellFormed, AddGenericItem, DissectorSpec.Next, Encode;
    OnEmpty([]);
    assert [0x10, 0x00] + [] == [0x10, 0x00];
    var d := DissectorSpec.Next(Fresh([0x10, 0x00])).1;
    GenericItemOutcome(d, Init([0x10, 0x00]), EMPTY, fmt, suppressTag, false, 0);
  }

  /** The second: a null follows, and the line of the string has neither indentation nor tag. */
  lemma UnmarkedEmptyStringFails(fmt: Format, suppressTag: bool)
    ensures var (err, d) := DissectorSpec.Next(Fresh([0x10, 0x00, 0x14]));
            err == NoError && AddGenericItem(d, fmt, suppressTag, false, 0).0 == NullBuffer
  {
    hide WellFormed, AddGenericItem, DissectorSpec.Next, Encode, Margin;
    OnEmpty([0x14]);
    assert [0x10, 0x00] + [0x14] == [0x10, 0x00, 0x14];
    MarginIsEmpty(Anonymous, PROFILE_NOT_SPECIFIED, suppressTag, false, 0);
    var d := DissectorSpec.Next(Fresh([0x10, 0x00, 0x14])).1;
    GenericItemOutcome(d, Init([0x10, 0x00, 0x14]), EMPTY, fmt, suppressTag, false, 0);
  }

  /** Next of a new dissector on an input that begins with the string. */
  lemma OnEmpty(rest: seq<Byte>)
    requires |[0x10, 0x00] + rest| < 0x1_0000_0000
    ensures var input := [0x10, 0x00] + rest;
            var s := Init(input);
            && DissectorSpec.Next(Fresh(input)).0 == NoError
            && Marks(DissectorSpec.Next(Fresh(input)).1, s, EMPTY)
            && At(input, 0, Encode(EMPTY)) && WellFormed(EMPTY, NOT_SPECIFIED, PROFILE_NOT_SPECIFIED)
            && Encode(EMPTY) == [0x10, 0x00]
  {
    hide WellFormed, DissectorSpec.Next, Encode;
    var input: seq<Byte> := [0x10, 0x00] + rest;
    EmptyIsEncoded();
    assert input[0..2] == [0x10, 0x00];
    SkipBetween(Init(input));
    MarksWellFormed(Fresh(input), Init(input), EMPTY);
  }
}
