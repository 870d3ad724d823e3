/** The flat skip accepts nothing but encodings of skippable elements. */
module SkipLanguage {
  import opened Bytes
  import opened TlvFormat
  import opened ReaderSpec
  import opened FlatScan
  import opened Skipping
  import opened RoundTrip

  /** The element whose verified head was read at `s`, if its data can be skipped. */
  lemma RawElement(s: Reader, u: Reader, forgets: bool) returns (e: Element)
    requires s.Valid() && u.Valid() && Verified(s, u) && !IsContainerType(u.ElementType())
    requires SkipData(u).0 == NoError
    ensures !e.Container? && Skippable(e, s.containerType, forgets, s.implicitProfile)
    ensures At(s.input, s.pos, Encode(e)) && u == On(s, e)
  {
    hide Head, RecoverTag, TagAllowed;
    if HasLength(u.ElementType()) {
      e := Text(ReportedTag(u), u.ElementType() < 0x10, FieldBytes(u.ElementType()), u.lenOrVal,
                u.input[u.pos..u.pos + DataLength(u.lenOrVal)]);
      assert TypeCode(e) == u.ElementType();
    } else {
      hide At, ReadLeaf;
      LeafHasNoData(u);
      LeafWalked(s, u);
      e := ReadLeaf(u).value.0;
      WellFormedIsSkippable(e, s.containerType, s.containerType, forgets, s.implicitProfile);
      return;
    }
    VerifiedReadsAs(s, u, e);
    LeafStands(s, u, e);
  }

  lemma LeafHasNoData(u: Reader)
    requires u.Valid() && u.control < 0x100 && u.ElementType() < END_OF_CONTAINER
    requires !IsContainerType(u.ElementType()) && !HasLength(u.ElementType())
    ensures ReadLeaf(u).Ok?
  {
    hide RecoverTag;
  }

  /** Whatever the descent gets through is an encoding of skippable members and a closing byte. */
  lemma {:induction false} DescentIsEncoding(s: Reader, t: Reader, atTop: bool, outer: int)
    returns (es: seq<Element>, closing: Tag)
    requires s.Valid() && SkipData(s) == (NoError, t) && t.containerType != NOT_SPECIFIED
    requires DescendMembers(s, atTop, outer).0 == NoError
    requires atTop ==> outer == t.containerType
    ensures AllSkippable(es, t.containerType, !atTop, t.implicitProfile) && ClosingOk(closing, t.implicitProfile)
    ensures At(t.input, t.pos, EncodeAll(es) + Head(closing, END_OF_CONTAINER, 0))
    decreases |s.input| - s.pos
  {
    hide Head, HeadOf, ReadElement, SkipData, Encode, At, Verified, Skippable, RecoverTag;
    var u := ReadElement(t).1;
    if u.ElementType() == END_OF_CONTAINER {
      es, closing := [], ReportedTag(u);
      ClosingIsVerified(t);
      assert EncodeAll(es) + Head(closing, END_OF_CONTAINER, 0) == Head(closing, END_OF_CONTAINER, 0);
    } else {
      var e, s', t' := FirstElement(s, t, atTop, outer);
      var rest;
      rest, closing := DescentIsEncoding(s', t', atTop, outer);
      es := [e] + rest;
      assert es[1..] == rest;
      AtConcat(t.input, t'.pos, EncodeAll(rest), Head(closing, END_OF_CONTAINER, 0));
      AtConcat(t.input, t.pos, Encode(e), EncodeAll(rest));
      AtConcat(t.input, t.pos, EncodeAll(es), Head(closing, END_OF_CONTAINER, 0));
    }
  }

  lemma ClosingIsVerified(t: Reader)
    requires t.Valid() && ReadElement(t).0 == NoError && ReadElement(t).1.ElementType() == END_OF_CONTAINER
    ensures var closing := ReportedTag(ReadElement(t).1);
            ClosingOk(closing, t.implicitProfile) && At(t.input, t.pos, Head(closing, END_OF_CONTAINER, 0))
  {
    hide Head, RecoverTag, ReadElement, At;
    ReadHeadIsHead(t);
    assert Pow256(FieldBytes(END_OF_CONTAINER)) == 1;
  }

  /** The first member the descent passes, and the states it continues from. */
  lemma {:induction false} FirstElement(s: Reader, t: Reader, atTop: bool, outer: int)
    returns (e: Element, s': Reader, t': Reader)
    requires s.Valid() && SkipData(s) == (NoError, t) && t.containerType != NOT_SPECIFIED
    requires DescendMembers(s, atTop, outer).0 == NoError && ReadElement(t).1.ElementType() != END_OF_CONTAINER
    requires atTop ==> outer == t.containerType
    ensures Skippable(e, t.containerType, true, t.implicitProfile) && At(t.input, t.pos, Encode(e))
    ensures s'.Valid() && SkipData(s') == (NoError, t') && s.pos < s'.pos && s'.input == s.input
    ensures DescendMembers(s', atTop, outer).0 == NoError
    ensures t'.input == t.input && t'.implicitProfile == t.implicitProfile && t'.pos == t.pos + |Encode(e)|
    ensures t'.containerType == if !atTop && e.Container? then UNKNOWN_CONTAINER else t.containerType
    decreases |s.input| - s.pos, 0
  {
    hide Head, HeadOf, ReadElement, SkipData, Encode, EncodeAll, At, RecoverTag, TagAllowed;
    var u := ReadElement(t).1;
    ReadIsVerified(t);
    if IsContainerType(u.ElementType()) {
      var inside := u.(containerType := u.ElementType());
      NoDataToSkip(inside);
      var members, closing := DescentIsEncoding(inside, inside, false, outer);
      DescentOverMembers(inside, inside, members, closing, false, outer);
      e := Container(ReportedTag(u), u.ElementType(), members, closing);
      VerifiedReadsAs(t, u, e);
      AtConcat(t.input, u.pos, EncodeAll(members), Head(closing, END_OF_CONTAINER, 0));
      ContainerStands(t, u, e);
      s' := DescendMembers(inside, false, outer).1.(containerType := if atTop then outer else UNKNOWN_CONTAINER);
      NoDataToSkip(s');
      t' := s';
    } else {
      e := RawElement(t, u, true);
      DataIsSkipped(t, e, true);
      s', t' := u, SkipData(u).1;
    }
  }

  /** From an element's head, Skip succeeds only on the encoding of a skippable element. */
  lemma SkippedIsSkippable(s: Reader) returns (e: Element)
    requires s.Valid() && ReadElement(s).0 == NoError && ReadElement(s).1.ElementType() != END_OF_CONTAINER
    requires Skip(ReadElement(s).1).0 == NoError
    ensures Skippable(e, s.containerType, false, s.implicitProfile) && At(s.input, s.pos, Encode(e))
    ensures ReadElement(s).1 == On(s, e) && Skip(On(s, e)) == (NoError, Past(s, e))
  {
    hide Head, HeadOf, ReadElement, SkipData, Encode, EncodeAll, At, RecoverTag, TagAllowed, SkipToEndOfContainer;
    var u := ReadElement(s).1;
    ReadIsVerified(s);
    if IsContainerType(u.ElementType()) {
      var inside := EnterContainer(u).1;
      SkipIsDescent(inside);
      NoDataToSkip(inside);
      var members, closing := DescentIsEncoding(inside, inside, true, inside.containerType);
      AtConcat(s.input, u.pos, EncodeAll(members), Head(closing, END_OF_CONTAINER, 0));
      e := Container(ReportedTag(u), u.ElementType(), members, closing);
      VerifiedReadsAs(s, u, e);
      ContainerStands(s, u, e);
    } else {
      e := RawElement(s, u, false);
    }
    SkipIsPast(s, e);
  }

  /** The accepted language of one Skip, for every input and container type. */
  lemma SkipAcceptsSkippable(s: Reader)
    requires s.Valid() && ReadElement(s).0 == NoError && ReadElement(s).1.ElementType() != END_OF_CONTAINER
    ensures Skip(ReadElement(s).1).0 == NoError <==>
            exists e :: Skippable(e, s.containerType, false, s.implicitProfile) && At(s.input, s.pos, Encode(e))
  {
    hide ReadElement, Skip, Skippable, At, Encode;
    if Skip(ReadElement(s).1).0 == NoError {
      var e := SkippedIsSkippable(s);
    }
    if e :| Skippable(e, s.containerType, false, s.implicitProfile) && At(s.input, s.pos, Encode(e)) {
      ElementIsRead(s, e, false);
      SkipIsPast(s, e);
    }
  }

  // ---- What Skip accepts and the walk does not ----

  /** Equal bytes of two skippable elements are one element. */
  lemma {:induction false} SkippableIsUnambiguous(s: Reader, e: Element, f: Element, forgets: bool)
    requires s.Valid() && At(s.input, s.pos, Encode(e)) && At(s.input, s.pos, Encode(f))
    requires Skippable(e, s.containerType, forgets, s.implicitProfile)
    requires Skippable(f, s.containerType, forgets, s.implicitProfile)
    ensures e == f
    decreases e, 1
  {
    hide HeadOf, Head, ReadElement, Encode, EncodeAll, At, RecoverTag, AllSkippable;
    ElementIsRead(s, e, forgets);
    ElementIsRead(s, f, forgets);
    assert On(s, e) == On(s, f);
    SkippableTag(s, e, forgets);
    SkippableTag(s, f, forgets);
    FieldFits(e, s.containerType, forgets, s.implicitProfile);
    FieldFits(f, s.containerType, forgets, s.implicitProfile);
    HeadStands(s, e);
    HeadStands(s, f);
    if e.Leaf? {
      ValueOfField(e, f);
    } else if e.Container? {
      var inside := On(s, e).(containerType := e.kind);
      MembersAreUnambiguous(inside, e.members, e.closing, f.members, f.closing, forgets);
    } else {
      TextOfField(s.input, s.pos + |HeadOf(e)|, e, f);
    }
  }

  lemma TextOfField(input: seq<Byte>, pos: nat, e: Element, f: Element)
    requires e.Text? && f.Text? && e.tag == f.tag && IsWidth(e.width) && IsWidth(f.width)
    requires e.length % 0x1_0000_0000 == |e.data| && f.length % 0x1_0000_0000 == |f.data|
    requires TypeCode(e) == TypeCode(f) && FieldValue(e) == FieldValue(f)
    requires At(input, pos, e.data) && At(input, pos, f.data)
    ensures e == f
  {
  }

  lemma SkippableTag(s: Reader, e: Element, forgets: bool)
    requires Skippable(e, s.containerType, forgets, s.implicitProfile) && TypeCode(e) < 32
    ensures On(s, e).control / 32 == e.tag.Form() && RecoverTag(e.tag.Form(), On(s, e).tag) == e.tag
  {
    hide HeadOf, TypeCode, FieldValue, RecoverTag;
    TagRecovered(e.tag, s.implicitProfile);
    assert On(s, e).control / 32 == e.tag.Form();
  }

  lemma ValueOfField(e: Element, f: Element)
    requires e.Leaf? && f.Leaf? && ValueOk(e.value) && ValueOk(f.value) && e.tag == f.tag
    requires TypeCode(e) == TypeCode(f) && FieldValue(e) == FieldValue(f)
    ensures e == f
  {
    Widths();
  }

  lemma {:induction false} MembersAreUnambiguous(
    s: Reader, es: seq<Element>, closing: Tag, fs: seq<Element>, closing': Tag, forgets: bool)
    requires s.Valid() && s.containerType != NOT_SPECIFIED
    requires At(s.input, s.pos, EncodeAll(es)) && At(s.input, s.pos, EncodeAll(fs))
    requires At(s.input, s.pos + |EncodeAll(es)|, Head(closing, END_OF_CONTAINER, 0))
    requires At(s.input, s.pos + |EncodeAll(fs)|, Head(closing', END_OF_CONTAINER, 0))
    requires AllSkippable(es, s.containerType, forgets, s.implicitProfile) && ClosingOk(closing, s.implicitProfile)
    requires AllSkippable(fs, s.containerType, forgets, s.implicitProfile) && ClosingOk(closing', s.implicitProfile)
    ensures es == fs && closing == closing'
    decreases es, 0
  {
    hide HeadOf, Head, ReadElement, Encode, At, RecoverTag, Skippable, ClosingOk, On, OnClosing;
    if es != [] {
      AtConcat(s.input, s.pos, Encode(es[0]), EncodeAll(es[1..]));
      MemberIsRead(s, es[0]);
    } else {
      ClosingIsRead(s, closing);
    }
    if fs != [] {
      AtConcat(s.input, s.pos, Encode(fs[0]), EncodeAll(fs[1..]));
      MemberIsRead(s, fs[0]);
    } else {
      ClosingIsRead(s, closing');
    }
    if es == [] {
      ClosingIsUnambiguous(s, closing, closing');
    } else {
      SkippableIsUnambiguous(s, es[0], fs[0], true);
      var next := s.(pos := s.pos + |Encode(es[0])|,
                     containerType := if forgets && es[0].Container? then UNKNOWN_CONTAINER else s.containerType);
      StandsInside(s.input, next.pos, EncodeAll(es[1..]));
      MembersAreUnambiguous(next, es[1..], closing, fs[1..], closing', forgets);
      assert es == [es[0]] + es[1..] && fs == [fs[0]] + fs[1..];
    }
  }

  lemma MemberIsRead(s: Reader, e: Element)
    requires s.Valid() && At(s.input, s.pos, Encode(e)) && Skippable(e, s.containerType, true, s.implicitProfile)
    ensures ReadElement(s).0 == NoError && ReadElement(s).1.ElementType() != END_OF_CONTAINER
  {
    hide HeadOf, ReadElement, Encode, At;
    ElementIsRead(s, e, true);
    FieldFits(e, s.containerType, true, s.implicitProfile);
  }

  lemma StandsInside(input: seq<Byte>, pos: nat, bs: seq<Byte>)
    requires At(input, pos, bs)
    ensures pos <= |input|
  {
  }

  lemma ClosingIsUnambiguous(s: Reader, closing: Tag, closing': Tag)
    requires s.Valid() && s.containerType != NOT_SPECIFIED
    requires At(s.input, s.pos, Head(closing, END_OF_CONTAINER, 0)) && ClosingOk(closing, s.implicitProfile)
    requires At(s.input, s.pos, Head(closing', END_OF_CONTAINER, 0)) && ClosingOk(closing', s.implicitProfile)
    ensures closing == closing'
  {
    hide Head, ReadElement, At, RecoverTag;
    ClosingIsRead(s, closing);
    ClosingIsRead(s, closing');
    assert OnClosing(s, closing) == OnClosing(s, closing');
    TagRecovered(closing, s.implicitProfile);
    TagRecovered(closing', s.implicitProfile);
  }

  /**
    The exact gap: on an element that Skip accepts, the walk succeeds if and only if the strict
    rules allow the element.
   */
  lemma WalkAcceptsWellFormed(s: Reader, e: Element)
    requires s.Between() && At(s.input, s.pos, Encode(e))
    requires Skippable(e, s.containerType, false, s.implicitProfile)
    ensures On(s, e).Valid() && On(s, e).control < 0x100 && Skip(On(s, e)) == (NoError, Past(s, e))
    ensures Walk(On(s, e)).Ok? <==> WellFormed(e, s.containerType, s.implicitProfile)
  {
    hide HeadOf, Encode, At, Skippable, WellFormed, Walk, Skip, ReadElement, Next;
    ElementIsRead(s, e, false);
    SkipIsPast(s, e);
    FieldFits(e, s.containerType, false, s.implicitProfile);
    if WellFormed(e, s.containerType, s.implicitProfile) {
      DecodeElement(s, e);
    }
    if Walk(On(s, e)).Ok? {
      NextIsOnSkippable(s, e);
      EncodeElement(s, s);
      var f := Walk(On(s, e)).value.0;
      WellFormedIsSkippable(f, s.containerType, s.containerType, false, s.implicitProfile);
      SkippableIsUnambiguous(s, e, f, false);
    }
  }

  lemma NextIsOnSkippable(s: Reader, e: Element)
    requires s.Between() && At(s.input, s.pos, Encode(e))
    requires Skippable(e, s.containerType, false, s.implicitProfile)
    ensures Skip(s) == (NoError, s) && Next(s) == (NoError, On(s, e))
  {
    hide HeadOf, Encode, At, Skippable, ReadElement, Skip;
    SkipBetween(s);
    ElementIsRead(s, e, false);
    FieldFits(e, s.containerType, false, s.implicitProfile);
  }

  /** An input that is one lax element: Skip gets to its end, and the walk fails. */
  lemma OnlySkipped(s: Reader, e: Element)
    requires s.Between() && s.input == Encode(e) && s.pos == 0
    requires Skippable(e, s.containerType, false, s.implicitProfile)
    requires !WellFormed(e, s.containerType, s.implicitProfile)
    ensures var (err, u) := Next(s);
            && err == NoError && Skip(u).0 == NoError && Skip(u).1.pos == |s.input|
            && u.control < 0x100 && Walk(u).Err?
  {
    hide HeadOf, Encode, Skippable, WellFormed, Walk, Skip, Next, On;
    assert s.input[0..|s.input|] == s.input;
    NextIsOnSkippable(s, e);
    WalkAcceptsWellFormed(s, e);
  }

  /**
    So skipping accepts strictly more than walking. Behind a nested container an untagged
    member of a structure goes unnoticed.
   */
  lemma UntaggedIsSkipped(profile: nat)
    ensures var s := Init([0x15, 0x35, 0x00, 0x36, 0x01, 0x18, 0x14, 0x18, 0x18]).(implicitProfile := profile);
            var (err, u) := Next(s);
            && err == NoError && Skip(u).0 == NoError && Skip(u).1.pos == |s.input|
            && u.control < 0x100 && Walk(u).Err?
  {
    hide Skip, Next, Walk;
    var list := Container(Context(1), ARRAY, [], Anonymous);
    var untagged := Leaf(Anonymous, Null);
    var inner := Container(Context(0), STRUCTURE, [list, untagged], Anonymous);
    var e := Container(Anonymous, STRUCTURE, [inner], Anonymous);
    UntaggedIsLax(list, untagged, inner, e, profile);
    UntaggedBytes(list, untagged, inner, e);
    OnlySkipped(Init(Encode(e)).(implicitProfile := profile), e);
  }

  lemma UntaggedIsLax(list: Element, untagged: Element, inner: Element, e: Element, profile: nat)
    requires list == Container(Context(1), ARRAY, [], Anonymous) && untagged == Leaf(Anonymous, Null)
    requires inner == Container(Context(0), STRUCTURE, [list, untagged], Anonymous)
    requires e == Container(Anonymous, STRUCTURE, [inner], Anonymous)
    ensures Skippable(e, NOT_SPECIFIED, false, profile) && !WellFormed(e, NOT_SPECIFIED, profile)
  {
    assert [list, untagged][1..] == [untagged] && [untagged][1..] == [] && [inner][1..] == [];
    assert Skippable(untagged, UNKNOWN_CONTAINER, true, profile);
    assert AllSkippable([], UNKNOWN_CONTAINER, true, profile);
    assert AllSkippable([untagged], UNKNOWN_CONTAINER, true, profile);
    assert AllSkippable([list, untagged], STRUCTURE, true, profile);
    assert Skippable(inner, STRUCTURE, true, profile);
    assert !WellFormed(untagged, STRUCTURE, profile);
    assert !AllWellFormed([untagged], STRUCTURE, profile);
    assert !WellFormed(inner, STRUCTURE, profile);
  }

  lemma UntaggedBytes(list: Element, untagged: Element, inner: Element, e: Element)
    requires list == Container(Context(1), ARRAY, [], Anonymous) && untagged == Leaf(Anonymous, Null)
    requires inner == Container(Context(0), STRUCTURE, [list, untagged], Anonymous)
    requires e == Container(Anonymous, STRUCTURE, [inner], Anonymous)
    ensures Encode(e) == [0x15, 0x35, 0x00, 0x36, 0x01, 0x18, 0x14, 0x18, 0x18]
  {
    hide HeadOf, Head;
    HeadBytesOf(list, untagged, inner, e);
    TwoMembers(list, untagged);
    assert EncodeAll([]) == [];
    assert Encode(list) == [0x36, 0x01, 0x18] && Encode(untagged) == [0x14];
    assert Encode(inner) == [0x35, 0x00, 0x36, 0x01, 0x18, 0x14, 0x18];
    assert [inner][1..] == [] && EncodeAll([inner]) == Encode(inner);
  }

  lemma TwoMembers(e: Element, f: Element)
    ensures EncodeAll([e, f]) == Encode(e) + Encode(f)
  {
    hide Encode;
    assert [e, f][1..] == [f] && [f][1..] == [];
    assert EncodeAll([f]) == Encode(f) + EncodeAll([]);
  }

  lemma HeadBytesOf(list: Element, untagged: Element, inner: Element, e: Element)
    requires list == Container(Context(1), ARRAY, [], Anonymous) && untagged == Leaf(Anonymous, Null)
    requires inner == Container(Context(0), STRUCTURE, [list, untagged], Anonymous)
    requires e == Container(Anonymous, STRUCTURE, [inner], Anonymous)
    ensures HeadOf(list) == [0x36, 0x01] && HeadOf(untagged) == [0x14]
    ensures HeadOf(inner) == [0x35, 0x00] && HeadOf(e) == [0x15]
    ensures Head(Anonymous, END_OF_CONTAINER, 0) == [0x18]
  {
    assert WriteLE(0, 1) == [0] && WriteLE(1, 1) == [1];
  }

  /** An 8-byte length of 2^32 counts as no data at all when it is skipped. */
  lemma WrappedLengthIsSkipped(profile: nat)
    ensures var s := Init([0x13, 0, 0, 0, 0, 1, 0, 0, 0]).(implicitProfile := profile);
            var (err, u) := Next(s);
            && err == NoError && Skip(u).0 == NoError && Skip(u).1.pos == |s.input|
            && u.control < 0x100 && Walk(u).Err?
  {
    hide Skip, Next, Walk;
    var e := Text(Anonymous, false, 8, 0x1_0000_0000, []);
    Widths();
    WrappedLengthBytes(e);
    OnlySkipped(Init(Encode(e)).(implicitProfile := profile), e);
  }

  lemma WrappedLengthBytes(e: Element)
    requires e == Text(Anonymous, false, 8, 0x1_0000_0000, [])
    ensures Encode(e) == [0x13, 0, 0, 0, 0, 1, 0, 0, 0]
  {
    hide WriteLE;
    LowByte(0, 0, 0);
    LowByte(0, 0, 1);
    LowByte(0, 0, 2);
    LowByte(1, 0, 3);
    LowByte(0, 1, 4);
    LowByte(0, 0x100, 5);
    LowByte(0, 0x1_0000, 6);
    LowByte(0, 0x100_0000, 7);
    assert HeadOf(e) == [0x13] + WriteLE(0x1_0000_0000, 8);
  }

  lemma LowByte(low: Byte, n: nat, k: nat)
    ensures WriteLE(low + 256 * n, k + 1) == [low] + WriteLE(n, k)
    ensures WriteLE(n, 0) == []
  {
    var m := low + 256 * n;
    assert m / 256 == n && m % 256 == low;
    assert WriteLE(m, k + 1) == [m % 256] + WriteLE(m / 256, k);
  }
}
