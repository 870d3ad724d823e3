/** AddListItem: one handler call per direct member, in order, and a count of them. */
module ListItems {
  import opened Bytes
  import opened TlvFormat
  import opened ReaderSpec
  import opened Text
  import opened Skipping
  import opened RoundTrip
  import opened DissectorSpec
  import opened ElementRanges
  import opened Rendering

  /** A ListElemHandler, as the state transformation it performs. */
  type Handler = Dissector -> (Error, Dissector)

  /** A handler never gives bytes back. */
  ghost predicate Forward(h: Handler) {
    forall d: Dissector :: d.reader.Valid() ==> Advances(d.reader, h(d).1.reader)
  }

  /**
    A handler that succeeds on a well-formed element leaves the reader on that element or
    just behind it, the container stack as it was, and the lines already added in place.
   */
  ghost predicate Balanced(h: Handler) {
    forall d: Dissector, s: Reader, e: Element ::
      s.Valid() && WellFormed(e, s.containerType, s.implicitProfile) && Marks(d, s, e) && h(d).0 == NoError ==>
        var d' := h(d).1;
        && d'.reader.Valid() && Skip(d'.reader) == (NoError, Past(s, e))
        && d'.stack == d.stack && d.items <= d'.items
  }

  function AddSubTreeItem(d: Dissector): Dissector {
    AddString(d, "", false)
  }

  /** proto_item_append_text. */
  function AppendText(d: Dissector, item: nat, text: string): Dissector {
    if item < |d.items| then d.(items := d.items[item := d.items[item].(text := d.items[item].text + text)]) else d
  }

  function AddListItem(d: Dissector, h: Handler): (r: (Error, Dissector))
    requires d.reader.Valid() && Forward(h)
  {
    if GetType(d.reader) != ARRAY && GetType(d.reader) != PATH then (IncorrectState, d)
    else
      var d1 := AddSubTreeItem(d);
      var (err, d2) := DissectorSpec.EnterContainer(d1);
      if err != NoError then (err, d2)
      else
        var (err, count, d3) := HandleMembers(d2, h);
        if err != NoError then (err, d3)
        else
          var (err, d4) := DissectorSpec.ExitContainer(d3);
          if err != NoError then (err, d4)
          else (NoError, AppendText(d4, |d.items|, " (len = " + Decimal(count) + ")"))
  }

  /** The loop of AddListItem: the error, the number of members handled, and the state. */
  function HandleMembers(d: Dissector, h: Handler): (r: (Error, nat, Dissector))
    requires d.reader.Valid() && Forward(h)
    ensures Advances(d.reader, r.2.reader)
    decreases |d.reader.input| - d.reader.pos
  {
    var (err, d1) := DissectorSpec.Next(d);
    if err == EndOfTlv then (NoError, 0, d1)
    else if err != NoError then (err, 0, d1)
    else
      var (err, d2) := h(d1);
      if err != NoError then (err, 0, d2)
      else
        var (err, count, d3) := HandleMembers(d2, h);
        (err, count + 1, d3)
  }

  /** Structures, and everything that is no container, are refused. */
  lemma OnlyListsAreHandled(d: Dissector, h: Handler)
    requires d.reader.Valid() && Forward(h)
    ensures GetType(d.reader) !in {0x16, 0x17} ==> AddListItem(d, h) == (IncorrectState, d)
  {
  }

  /** The state in which the handler meets a member. */
  function Met(d: Dissector, s: Reader, e: Element): Dissector {
    d.(lastItem := NO_ITEM, reader := On(s, e), elemStart := s.pos, elemLen := |Encode(e)|)
  }

  /** The handler applied to the members one after the other, each marked by its own range. */
  function HandleAll(d: Dissector, s: Reader, es: seq<Element>, h: Handler): (Error, Dissector)
    decreases es
  {
    if es == [] then (NoError, d)
    else
      var (err, d') := h(Met(d, s, es[0]));
      if err != NoError then (err, d') else HandleAll(d', Past(s, es[0]), es[1..], h)
  }

  lemma HandlerKeeps(d: Dissector, s: Reader, e: Element, h: Handler)
    requires Balanced(h) && s.Valid() && WellFormed(e, s.containerType, s.implicitProfile) && Marks(d, s, e)
    requires h(d).0 == NoError
    ensures var d' := h(d).1;
            && d'.reader.Valid() && Skip(d'.reader) == (NoError, Past(s, e))
            && d'.stack == d.stack && d.items <= d'.items
  {
  }

  lemma {:induction false} MembersAreHandled(d: Dissector, s: Reader, es: seq<Element>, closing: Tag, h: Handler)
    requires Forward(h) && Balanced(h)
    requires d.reader.Valid() && Skip(d.reader) == (NoError, s)
    requires IsContainerType(s.containerType) && AllWellFormed(es, s.containerType, s.implicitProfile)
    requires ClosingOk(closing, s.implicitProfile)
    requires At(s.input, s.pos, EncodeAll(es) + Head(closing, END_OF_CONTAINER, 0))
    ensures var (err, count, d') := HandleMembers(d, h);
            var (err', all) := HandleAll(d, s, es, h);
            && err == err'
            && (err == NoError ==>
                  && count == |es|
                  && d' == all.(lastItem := NO_ITEM, reader := OnClosing(PastAll(s, es), closing),
                                elemStart := d'.elemStart)
                  && d'.reader.ElementType() == END_OF_CONTAINER
                  && d'.stack == d.stack && d.items <= d'.items)
    decreases es
  {
    hide Skip, HeadOf, Head, Encode, WellFormed, At, DissectorSpec.Next, Balanced, Forward, OnClosing, ClosingOk;
    AtConcat(s.input, s.pos, EncodeAll(es), Head(closing, END_OF_CONTAINER, 0));
    if es == [] {
      NextIsEnd(d, s, closing);
    } else {
      AtConcat(s.input, s.pos, Encode(es[0]), EncodeAll(es[1..]));
      AtConcat(s.input, s.pos + |Encode(es[0])|, EncodeAll(es[1..]), Head(closing, END_OF_CONTAINER, 0));
      MarksWellFormed(d, s, es[0]);
      var d1 := DissectorSpec.Next(d).1;
      assert Marks(d1, s, es[0]);
      var (err, d2) := h(d1);
      if err == NoError {
        HandlerKeeps(d1, s, es[0], h);
        PastPosition(s, es[0]);
        MembersAreHandled(d2, Past(s, es[0]), es[1..], closing, h);
      }
    }
  }

  /**
    On a well-formed array or path: the handler meets each direct member once, in order; its
    first error is the result; and otherwise the list's own line ends in the member count,
    the reader is behind the list, and stack and range are as before.
   */
  lemma ListIsHandled(d: Dissector, s: Reader, e: Element, h: Handler)
    requires Forward(h) && Balanced(h)
    requires s.Valid() && At(s.input, s.pos, Encode(e)) && WellFormed(e, s.containerType, s.implicitProfile)
    requires Marks(d, s, e) && e.Container? && e.kind != STRUCTURE
    ensures d.reader.Valid() && ReaderSpec.EnterContainer(d.reader).0 == NoError
    ensures var d1 := PushContainer(AddSubTreeItem(d), s.containerType);
            var inside := ReaderSpec.EnterContainer(d.reader).1;
            var (err, all) := HandleAll(d1.(reader := inside), inside, e.members, h);
            var (err', d') := AddListItem(d, h);
            && err' == err
            && (err == NoError ==>
                  && d' == AppendText(all, |d.items|, " (len = " + Decimal(|e.members|) + ")").(
                             lastItem := |d.items|, elemStart := d.elemStart, elemLen := d.elemLen,
                             stack := d.stack, reader := Past(s, e)))
  {
    hide Skip, HeadOf, Head, Encode, EncodeAll, HandleMembers, DissectorSpec.ExitContainer, At, TagAllowed,
         TypeCode, Skippable, Decimal,
         HandleAll, Forward, Balanced;
    WellFormedIsSkippable(e, s.containerType, s.containerType, false, s.implicitProfile);
    ElementIsRead(s, e, false);
    FieldFits(e, s.containerType, false, s.implicitProfile);
    HeadStands(s, e);
    var d2 := DissectorSpec.EnterContainer(AddSubTreeItem(d)).1;
    var inside := d2.reader;
    assert d2 == PushContainer(AddSubTreeItem(d), s.containerType).(reader := inside);
    AtConcat(s.input, inside.pos, EncodeAll(e.members), Head(e.closing, END_OF_CONTAINER, 0));
    SkipBetween(inside);
    MembersAreHandled(d2, inside, e.members, e.closing, h);
    var (err, count, d3) := HandleMembers(d2, h);
    if err == NoError {
      PastAllPosition(inside, e.members);
      LeaveFromClosing(d3, d.stack, Frame(s.containerType, |d.items|, d.elemStart, d.elemLen));
      PastPosition(s, e);
    }
  }

  /** AddGenericTLVItem, as a handler. */
  function GenericHandler(fmt: Format, suppressTag: bool): Handler {
    (d: Dissector) =>
      if d.reader.Valid() then AddGenericItem(d, fmt, suppressTag, false, 0) else (IncorrectState, d)
  }

  /** AddGenericTLVItem is a balanced handler, so lists of generic items are handled in full. */
  lemma GenericHandlerIsBalanced(fmt: Format, suppressTag: bool)
    ensures Forward(GenericHandler(fmt, suppressTag)) && Balanced(GenericHandler(fmt, suppressTag))
  {
    hide AddGenericItem, Marks, Skip, Past, WellFormed;
    var h := GenericHandler(fmt, suppressTag);
    forall d: Dissector, s: Reader, e: Element |
      s.Valid() && WellFormed(e, s.containerType, s.implicitProfile) && Marks(d, s, e) && h(d).0 == NoError
      ensures h(d).1.reader.Valid() && Skip(h(d).1.reader) == (NoError, Past(s, e))
      ensures h(d).1.stack == d.stack && d.items <= h(d).1.items
    {
      GenericItemIsBalanced(d, s, e, fmt, suppressTag);
    }
  }

  lemma GenericItemIsBalanced(d: Dissector, s: Reader, e: Element, fmt: Format, suppressTag: bool)
    requires s.Valid() && WellFormed(e, s.containerType, s.implicitProfile) && Marks(d, s, e)
    requires GenericHandler(fmt, suppressTag)(d).0 == NoError
    ensures var d' := GenericHandler(fmt, suppressTag)(d).1;
            && d'.reader.Valid() && Skip(d'.reader) == (NoError, Past(s, e))
            && d'.stack == d.stack && d.items <= d'.items
  {
    hide AddGenericItem, Skip, Past, WellFormed, Render, Encode, HeadOf, HasLine, DataReachable;
    GenericItemOutcome(d, s, e, fmt, suppressTag, false, 0);
    ItemIsRendered(d, s, e, fmt, suppressTag, false, 0);
  }

  /** An array that holds an empty byte string is a list it fails on. */
  lemma GenericListMayFail(fmt: Format, suppressTag: bool)
    ensures var (err, d) := DissectorSpec.Next(Fresh([0x16, 0x10, 0x00, 0x18]));
            err == NoError && AddListItem(d, GenericHandler(fmt, suppressTag)).0 == NullBuffer
  {
    hide AddListItem, GenericHandler, DissectorSpec.Next, HandleAll, Forward, Balanced, WellFormed, Encode, HeadOf,
         Skip, AddString, Met;
    var input: seq<Byte> := [0x16, 0x10, 0x00, 0x18];
    var s := Init(input);
    var e := Container(Anonymous, ARRAY, [EMPTY], Anonymous);
    var h := GenericHandler(fmt, suppressTag);
    ListStands(e);
    SkipBetween(s);
    MarksWellFormed(Fresh(input), s, e);
    var d := DissectorSpec.Next(Fresh(input)).1;
    GenericHandlerIsBalanced(fmt, suppressTag);
    ListIsHandled(d, s, e, h);
    var inside := ReaderSpec.EnterContainer(d.reader).1;
    var d1 := PushContainer(AddSubTreeItem(d), s.containerType).(reader := inside);
    FirstIsHandled(d1, inside, e.members, h);
    EmptyFails(d1, inside, fmt, suppressTag);
  }

  lemma ListStands(e: Element)
    requires e == Container(Anonymous, ARRAY, [EMPTY], Anonymous)
    ensures Encode(e) == [0x16, 0x10, 0x00, 0x18] && HeadOf(e) == [0x16]
    ensures At([0x16, 0x10, 0x00, 0x18], 0, Encode(e)) && WellFormed(e, NOT_SPECIFIED, PROFILE_NOT_SPECIFIED)
  {
    EmptyIsEncoded();
    assert [EMPTY][1..] == [];
    assert EncodeAll([EMPTY]) == [0x10, 0x00] + EncodeAll([]);
    assert HeadOf(e) == [0x16] && Head(Anonymous, END_OF_CONTAINER, 0) == [0x18];
    var input: seq<Byte> := [0x16, 0x10, 0x00, 0x18];
    assert input[0..4] == input;
  }

  lemma FirstIsHandled(d: Dissector, s: Reader, es: seq<Element>, h: Handler)
    requires es != []
    ensures h(Met(d, s, es[0])).0 != NoError ==> HandleAll(d, s, es, h).0 == h(Met(d, s, es[0])).0
  {
  }

  lemma EmptyFails(d: Dissector, s: Reader, fmt: Format, suppressTag: bool)
    requires s.Valid() && s.containerType == ARRAY && s.implicitProfile == PROFILE_NOT_SPECIFIED
    requires At(s.input, s.pos, [0x10, 0x00, 0x18])
    ensures GenericHandler(fmt, suppressTag)(Met(d, s, EMPTY)).0 == NullBuffer
  {
    hide AddGenericItem, WellFormed, Margin, Encode;
    EmptyIsEncoded();
    AtConcat(s.input, s.pos, [0x10, 0x00], [0x18]);
    assert [0x10, 0x00] + [0x18] == [0x10, 0x00, 0x18];
    MarginIsEmpty(Anonymous, PROFILE_NOT_SPECIFIED, suppressTag, false, 0);
    GenericItemOutcome(Met(d, s, EMPTY), s, EMPTY, fmt, suppressTag, false, 0);
  }
}
