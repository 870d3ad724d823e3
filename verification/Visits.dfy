/**
  Reading some of a container's members, in any way, and then leaving it is the same as
  skipping it.
 */
module Visits {
  import opened Bytes
  import opened TlvFormat
  import opened ReaderSpec
  import opened FlatScan
  import opened Skipping
  import opened RoundTrip

  /** What a caller may do between entering and leaving a container. */
  datatype Visit =
    | VisitNext
    | VisitSkip
    | VisitGetBytes(bufSize: nat)
    | VisitNested(visits: seq<Visit>)

  /** The state a call leaves behind, whether it succeeds or not. */
  function Perform(s: Reader, v: Visit): (t: Reader)
    requires s.Valid()
    ensures Advances(s, t)
    decreases v, 1
  {
    match v
    case VisitNext => Next(s).1
    case VisitSkip => Skip(s).1
    case VisitGetBytes(bufSize) => GetBytes(s, bufSize).2
    case VisitNested(visits) =>
      var (err, inside, outer) := EnterContainer(s);
      if err != NoError then s else ExitContainer(PerformAll(inside, visits), outer).1
  }

  function PerformAll(s: Reader, visits: seq<Visit>): (t: Reader)
    requires s.Valid()
    ensures Advances(s, t)
    decreases visits, 0
  {
    if visits == [] then s else PerformAll(Perform(s, visits[0]), visits[1..])
  }

  /** Where a reader can be among the members of a container. */
  datatype Spot =
    | Before(i: nat)
    | On(i: nat)
    | Read(i: nat)
    | AtEnd

  /** The reader before member `i`, if `b` is the reader just inside the container. */
  function Here(b: Reader, es: seq<Element>, i: nat): Reader
    requires i <= |es|
  {
    b.(pos := b.pos + |EncodeAll(es[..i])|)
  }

  ghost predicate IsAt(t: Reader, b: Reader, es: seq<Element>, closing: Tag, spot: Spot) {
    match spot
    case Before(i) => i <= |es| && t == Here(b, es, i)
    case On(i) => i < |es| && t == Skipping.On(Here(b, es, i), es[i])
    case Read(i) => i < |es| && es[i].Text? && t == Visited(Here(b, es, i), es[i])
    case AtEnd => t == OnClosing(Here(b, es, |es|), closing)
  }

  /** `b` has just entered a container whose well-formed members and end lie ahead. */
  ghost predicate Entered(b: Reader, es: seq<Element>, closing: Tag) {
    && b.Between() && !b.containerOpen && IsContainerType(b.containerType)
    && AllWellFormed(es, b.containerType, b.implicitProfile) && ClosingOk(closing, b.implicitProfile)
    && At(b.input, b.pos, EncodeAll(es) + Head(closing, END_OF_CONTAINER, 0))
  }

  // ---- Member i ----

  lemma EncodeAllSplits(es: seq<Element>, i: nat, containerType: int, profile: nat)
    requires i <= |es| && AllWellFormed(es, containerType, profile)
    ensures EncodeAll(es) == EncodeAll(es[..i]) + EncodeAll(es[i..])
    ensures AllWellFormed(es[i..], containerType, profile)
    ensures i < |es| ==> WellFormed(es[i], containerType, profile)
    ensures i < |es| ==> |EncodeAll(es[..i + 1])| == |EncodeAll(es[..i])| + |Encode(es[i])|
  {
    hide Encode, WellFormed;
    MembersInTwo(es[..i], es[i..]);
    assert es[..i] + es[i..] == es;
    AllAhead(es, i, containerType, profile);
    if i < |es| {
      MembersInTwo(es[..i], [es[i]]);
      assert es[..i + 1] == es[..i] + [es[i]];
      assert [es[i]][1..] == [];
    }
  }

  lemma {:induction false} MembersInTwo(a: seq<Element>, b: seq<Element>)
    ensures EncodeAll(a + b) == EncodeAll(a) + EncodeAll(b)
    decreases |a|
  {
    hide Encode;
    if a == [] {
      assert a + b == b;
    } else {
      assert (a + b)[1..] == a[1..] + b;
      MembersInTwo(a[1..], b);
    }
  }

  lemma {:induction false} AllAhead(es: seq<Element>, i: nat, containerType: int, profile: nat)
    requires i <= |es| && AllWellFormed(es, containerType, profile)
    ensures AllWellFormed(es[i..], containerType, profile)
    ensures i < |es| ==> WellFormed(es[i], containerType, profile)
    decreases i
  {
    hide WellFormed;
    if i == 0 {
      assert es[0..] == es;
    } else {
      AllAhead(es[1..], i - 1, containerType, profile);
      assert es[1..][i - 1..] == es[i..];
    }
  }

  /** What lies ahead of member `i`. */
  lemma Ahead(b: Reader, es: seq<Element>, closing: Tag, i: nat)
    requires Entered(b, es, closing) && i <= |es|
    ensures Here(b, es, i).Between() && Here(b, es, i) == b.(pos := Here(b, es, i).pos)
    ensures At(b.input, Here(b, es, i).pos, EncodeAll(es[i..]) + Head(closing, END_OF_CONTAINER, 0))
    ensures AllWellFormed(es[i..], b.containerType, b.implicitProfile)
    ensures i < |es| ==>
              && WellFormed(es[i], b.containerType, b.implicitProfile)
              && At(b.input, Here(b, es, i).pos, Encode(es[i]))
              && Past(Here(b, es, i), es[i]) == Here(b, es, i + 1)
    ensures i == |es| ==> At(b.input, Here(b, es, i).pos, Head(closing, END_OF_CONTAINER, 0))
  {
    hide Encode, WellFormed, Head, AllWellFormed;
    EncodeAllSplits(es, i, b.containerType, b.implicitProfile);
    var rest := EncodeAll(es[i..]);
    var end := Head(closing, END_OF_CONTAINER, 0);
    assert EncodeAll(es) + end == EncodeAll(es[..i]) + (rest + end);
    AtConcat(b.input, b.pos, EncodeAll(es[..i]), rest + end);
    AtConcat(b.input, Here(b, es, i).pos, rest, end);
    if i < |es| {
      AtConcat(b.input, Here(b, es, i).pos, Encode(es[i]), EncodeAll(es[i..][1..]));
    }
  }

  // ---- Leaving from any spot ----

  /** Having read the next head makes no difference to where the container ends. */
  lemma ReadKeepsEnd(s: Reader)
    requires s.Between() && !s.containerOpen && ReadElement(s).0 == NoError
    ensures SkipToEndOfContainer(ReadElement(s).1) == SkipToEndOfContainer(s)
  {
    hide ReadElement;
    ReadKeepsContext(s);
    assert s.(containerType := s.containerType, containerOpen := false) == s;
    var u := ReadElement(s).1;
    assert u.(containerOpen := false) == u;
    assert SkipData(s) == (NoError, s);
    assert SkipLoop(s, 0, s.containerType) == SkipLoop(u, 0, s.containerType);
  }

  lemma ReadKeepsContext(s: Reader)
    requires s.Valid()
    ensures ReadElement(s).1.containerType == s.containerType && ReadElement(s).1.containerOpen == s.containerOpen
  {
  }

  /** From every spot, leaving the container ends behind its closing byte. */
  lemma ExitFromSpot(t: Reader, b: Reader, es: seq<Element>, closing: Tag, spot: Spot)
    requires Entered(b, es, closing) && IsAt(t, b, es, closing, spot)
    ensures t.Valid() && SkipToEndOfContainer(t) == (NoError, OnClosing(Here(b, es, |es|), closing))
  {
    hide Encode, ReadElement, Head, HeadOf, SkipToEndOfContainer, SkipData, WellFormed, VerifyElement, AllSkippable;
    match spot
    case Before(i) =>
      ExitFromBefore(b, es, closing, i);
    case On(i) =>
      Ahead(b, es, closing, i);
      ExitFromBefore(b, es, closing, i);
      WellFormedIsSkippable(es[i], b.containerType, b.containerType, false, b.implicitProfile);
      ElementIsRead(Here(b, es, i), es[i], false);
      ReadKeepsEnd(Here(b, es, i));
    case Read(i) =>
      ExitFromRead(b, es, closing, i);
    case AtEnd =>
      Ahead(b, es, closing, |es|);
      ClosingIsRead(Here(b, es, |es|), closing);
      ExitFromEnd(t);
  }

  lemma ExitFromEnd(t: Reader)
    requires t.Valid() && t.ElementType() == END_OF_CONTAINER && !t.containerOpen
    ensures SkipToEndOfContainer(t) == (NoError, t)
  {
  }

  lemma ExitFromBefore(b: Reader, es: seq<Element>, closing: Tag, i: nat)
    requires Entered(b, es, closing) && i <= |es|
    ensures Here(b, es, i).Valid()
    ensures SkipToEndOfContainer(Here(b, es, i)) == (NoError, OnClosing(Here(b, es, |es|), closing))
  {
    hide Encode, ReadElement, Head, SkipToEndOfContainer, SkipData, DescendMembers, AllSkippable;
    Ahead(b, es, closing, i);
    var s := Here(b, es, i);
    SkipIsDescent(s);
    NoDataToSkip(s);
    AllWellFormedSkippable(es[i..], b.containerType, b.containerType, false, b.implicitProfile);
    DescentOverMembers(s, s, es[i..], closing, true, b.containerType);
    EncodeAllSplits(es, i, b.containerType, b.implicitProfile);
    assert es[..|es|] == es;
    assert s.(containerOpen := false) == s;
  }

  /** Only the position and the container decide what the next head is. */
  lemma ReadIgnoresElement(s: Reader, t: Reader)
    requires s.Valid() && t.Valid() && s.Clear() == t.Clear() && ReadElement(s).0 == NoError
    ensures ReadElement(t) == ReadElement(s)
  {
    hide TagOfHead, FieldOfHead, HeadBytes, VerifyElement;
  }

  /** Passing over a member's data makes no difference to where the container ends. */
  lemma DataKeepsEnd(t: Reader, s: Reader)
    requires t.Valid() && !t.containerOpen && !IsContainerType(t.ElementType()) && t.ElementType() != END_OF_CONTAINER
    requires Skip(t) == (NoError, s) && SkipToEndOfContainer(s).0 == NoError
    ensures SkipToEndOfContainer(t) == SkipToEndOfContainer(s)
  {
    hide ReadElement;
    var w := SkipData(t).1;
    assert t.(containerType := t.containerType, containerOpen := false) == t;
    assert s.(containerType := s.containerType, containerOpen := false) == s;
    assert SkipData(s) == (NoError, s);
    assert ReadElement(s).0 == NoError;
    ReadIgnoresElement(s, w);
  }

  lemma ExitFromRead(b: Reader, es: seq<Element>, closing: Tag, i: nat)
    requires Entered(b, es, closing) && i < |es| && es[i].Text?
    ensures var t := Visited(Here(b, es, i), es[i]);
            t.Valid() && SkipToEndOfContainer(t) == (NoError, OnClosing(Here(b, es, |es|), closing))
  {
    hide Encode, HeadOf, ReadElement, Head, SkipToEndOfContainer, Skip, WellFormed, TypeCode, At, FieldValue;
    Ahead(b, es, closing, i);
    var s := Here(b, es, i);
    SkipAfterVisit(s, es[i]);
    ExitFromBefore(b, es, closing, i + 1);
    WellFormedIsSkippable(es[i], b.containerType, b.containerType, false, b.implicitProfile);
    ElementIsRead(s, es[i], false);
    FieldFits(es[i], b.containerType, false, b.implicitProfile);
    assert Visited(s, es[i]).ElementType() == Skipping.On(s, es[i]).ElementType();
    DataKeepsEnd(Visited(s, es[i]), Here(b, es, i + 1));
  }

  // ---- Every call goes from spot to spot ----

  /** Skip from any spot: past the member, or nowhere at the end. */
  lemma SkipFromSpot(t: Reader, b: Reader, es: seq<Element>, closing: Tag, spot: Spot) returns (spot': Spot)
    requires Entered(b, es, closing) && IsAt(t, b, es, closing, spot)
    ensures t.Valid() && IsAt(Skip(t).1, b, es, closing, spot')
    ensures spot' == match spot
                     case Before(_) => spot
                     case On(i) => Before(i + 1)
                     case Read(i) => Before(i + 1)
                     case AtEnd => AtEnd
    ensures Skip(t).0 == if spot.AtEnd? then EndOfTlv else NoError
  {
    hide Encode, HeadOf, Head, ReadElement, SkipToEndOfContainer, SkipData, WellFormed, TypeCode, Skippable;
    match spot
    case Before(i) =>
      Ahead(b, es, closing, i);
      SkipBetween(t);
      spot' := spot;
    case On(i) =>
      Ahead(b, es, closing, i);
      WellFormedIsSkippable(es[i], b.containerType, b.containerType, false, b.implicitProfile);
      SkipIsPast(Here(b, es, i), es[i]);
      spot' := Before(i + 1);
    case Read(i) =>
      Ahead(b, es, closing, i);
      SkipAfterVisit(Here(b, es, i), es[i]);
      spot' := Before(i + 1);
    case AtEnd =>
      Ahead(b, es, closing, |es|);
      ClosingIsRead(Here(b, es, |es|), closing);
      spot' := AtEnd;
  }

  /** Next from any spot: onto the following member, or onto the end. */
  lemma NextFromSpot(t: Reader, b: Reader, es: seq<Element>, closing: Tag, spot: Spot) returns (spot': Spot)
    requires Entered(b, es, closing) && IsAt(t, b, es, closing, spot)
    ensures t.Valid() && IsAt(Next(t).1, b, es, closing, spot')
    ensures var n := match spot case Before(i) => i case On(i) => i + 1 case Read(i) => i + 1 case AtEnd => |es|;
            && spot' == (if n < |es| then On(n) else AtEnd)
            && Next(t).0 == if n < |es| then NoError else EndOfTlv
  {
    hide Encode, HeadOf, Head, ReadElement, Skip, WellFormed, TypeCode, Here, OnClosing;
    var between := SkipFromSpot(t, b, es, closing, spot);
    if spot.AtEnd? {
      spot' := AtEnd;
    } else {
      var i := between.i;
      Ahead(b, es, closing, i);
      if i < |es| {
        NextIsOn(t, Here(b, es, i), es[i]);
        spot' := On(i);
      } else {
        NextIsOnClosing(t, Here(b, es, i), closing);
        spot' := AtEnd;
      }
    }
  }

  /** Reading a string's bytes, where there is one; otherwise nothing moves. */
  lemma GetBytesFromSpot(t: Reader, b: Reader, es: seq<Element>, closing: Tag, spot: Spot, bufSize: nat)
    returns (spot': Spot)
    requires Entered(b, es, closing) && IsAt(t, b, es, closing, spot)
    ensures t.Valid() && IsAt(GetBytes(t, bufSize).2, b, es, closing, spot')
  {
    hide Encode, EncodeAll, HeadOf, Head, ReadElement, TypeCode, WellFormed, AllWellFormed, Skippable,
         ClosingOk, SkipData,
         Here, At;
    spot' := spot;
    match spot
    case Before(i) =>
      Ahead(b, es, closing, i);
    case On(i) =>
      Ahead(b, es, closing, i);
      var s := Here(b, es, i);
      WellFormedIsSkippable(es[i], b.containerType, b.containerType, false, b.implicitProfile);
      ElementIsRead(s, es[i], false);
      FieldFits(es[i], b.containerType, false, b.implicitProfile);
      if es[i].Text? && |es[i].data| <= bufSize {
        TextFromSpot(s, es[i], bufSize);
        spot' := Read(i);
      }
    case Read(i) =>
      Ahead(b, es, closing, i);
      TextReadTwice(Here(b, es, i), es[i], bufSize);
    case AtEnd =>
      Ahead(b, es, closing, |es|);
      ClosingIsRead(Here(b, es, |es|), closing);
  }

  lemma TextFromSpot(s: Reader, e: Element, bufSize: nat)
    requires s.Valid() && At(s.input, s.pos, Encode(e)) && e.Text? && |e.data| <= bufSize
    requires WellFormed(e, s.containerType, s.implicitProfile)
    ensures Skipping.On(s, e).Valid() && GetBytes(Skipping.On(s, e), bufSize).2 == Visited(s, e)
  {
    hide HeadOf, ReadElement, Encode, TypeCode, At;
    TextIsRead(s, e);
    WellFormedIsSkippable(e, s.containerType, s.containerType, false, s.implicitProfile);
    ElementIsRead(s, e, false);
  }

  lemma TextReadTwice(s: Reader, e: Element, bufSize: nat)
    requires s.Valid() && At(s.input, s.pos, Encode(e)) && e.Text?
    requires WellFormed(e, s.containerType, s.implicitProfile)
    ensures Visited(s, e).Valid() && GetBytes(Visited(s, e), bufSize).2 == Visited(s, e)
  {
    hide HeadOf, ReadElement, Encode, TypeCode;
    SkipAfterVisit(s, e);
  }

  /** Visits keep the reader among the members, down to any depth. */
  lemma {:induction false} VisitsStay(t: Reader, b: Reader, es: seq<Element>, closing: Tag,
    spot: Spot, visits: seq<Visit>)
    returns (spot': Spot)
    requires Entered(b, es, closing) && IsAt(t, b, es, closing, spot)
    ensures t.Valid() && IsAt(PerformAll(t, visits), b, es, closing, spot')
    decreases visits, 0
  {
    hide Next, Skip, Here, Entered, IsAt, Perform;
    var _ := SkipFromSpot(t, b, es, closing, spot);
    if visits == [] {
      spot' := spot;
    } else {
      var between := VisitStays(t, b, es, closing, spot, visits[0]);
      spot' := VisitsStay(Perform(t, visits[0]), b, es, closing, between, visits[1..]);
    }
  }

  lemma {:induction false} VisitStays(t: Reader, b: Reader, es: seq<Element>, closing: Tag, spot: Spot, v: Visit)
    returns (spot': Spot)
    requires Entered(b, es, closing) && IsAt(t, b, es, closing, spot)
    ensures t.Valid() && IsAt(Perform(t, v), b, es, closing, spot')
    decreases v, 1
  {
    hide Next, Skip, Here, GetBytes, ExitContainer, Entered, Encode, HeadOf, PerformAll;
    match v
    case VisitNext => spot' := NextFromSpot(t, b, es, closing, spot);
    case VisitSkip => spot' := SkipFromSpot(t, b, es, closing, spot);
    case VisitGetBytes(bufSize) => spot' := GetBytesFromSpot(t, b, es, closing, spot, bufSize);
    case VisitNested(visits) =>
      spot' := SkipFromSpot(t, b, es, closing, spot);
      if IsContainerType(t.ElementType()) {
        OnlyMembersAreContainers(t, b, es, closing, spot);
        Ahead(b, es, closing, spot.i);
        EarlyExitIsSkip(Here(b, es, spot.i), es[spot.i], visits);
      } else {
        spot' := spot;
      }
  }

  lemma OnlyMembersAreContainers(t: Reader, b: Reader, es: seq<Element>, closing: Tag, spot: Spot)
    requires Entered(b, es, closing) && IsAt(t, b, es, closing, spot) && IsContainerType(t.ElementType())
    ensures spot.On? && es[spot.i].Container?
  {
    hide Encode, HeadOf, Head, ReadElement, TypeCode, WellFormed, Here, At;
    if spot.On? || spot.Read? {
      Ahead(b, es, closing, spot.i);
      var s := Here(b, es, spot.i);
      WellFormedIsSkippable(es[spot.i], b.containerType, b.containerType, false, b.implicitProfile);
      ElementIsRead(s, es[spot.i], false);
      FieldFits(es[spot.i], b.containerType, false, b.implicitProfile);
      assert spot.Read? ==> t.ElementType() == Skipping.On(s, es[spot.i]).ElementType();
    } else if spot.Before? {
      Ahead(b, es, closing, spot.i);
    } else {
      Ahead(b, es, closing, |es|);
      ClosingIsRead(Here(b, es, |es|), closing);
    }
  }

  /**
    On a well-formed container: enter, visit anything in any order with any outcome, nested
    visits included, and exit at any point. The result is that of one Skip.
   */
  lemma {:induction false} EarlyExitIsSkip(s: Reader, e: Element, visits: seq<Visit>)
    requires s.Valid() && At(s.input, s.pos, Encode(e)) && e.Container?
    requires WellFormed(e, s.containerType, s.implicitProfile)
    ensures var c := Skipping.On(s, e);
            && c.Valid()
            && var (err, inside, outer) := EnterContainer(c);
            && err == NoError
            && ExitContainer(PerformAll(inside, visits), outer) == Skip(c)
            && Skip(c) == (NoError, Past(s, e))
    decreases visits, 3
  {
    hide HeadOf, Head, ReadElement, SkipToEndOfContainer, PerformAll, TypeCode, Here, Encode, EncodeAll;
    WellFormedIsSkippable(e, s.containerType, s.containerType, false, s.implicitProfile);
    SkipIsPast(s, e);
    MembersStay(s, e, visits);
  }

  /**
    The same with a reader of its own for the members: open, visit anything, close. The parent
    is left as by one Skip, except that it still counts as having a container open.
   */
  lemma OpenCloseIsSkip(s: Reader, e: Element, visits: seq<Visit>)
    requires s.Valid() && At(s.input, s.pos, Encode(e)) && e.Container?
    requires WellFormed(e, s.containerType, s.implicitProfile)
    ensures var c := Skipping.On(s, e);
            && c.Valid()
            && var (err, parent, child) := OpenContainer(c);
            && err == NoError
            && var (err', after, _) := CloseContainer(parent, PerformAll(child, visits));
            && err' == NoError && Skip(c).0 == NoError
            && after == Skip(c).1.(containerOpen := true)
  {
    hide HeadOf, Head, ReadElement, SkipToEndOfContainer, PerformAll, TypeCode, Here, Encode, EncodeAll;
    EarlyExitIsSkip(s, e, visits);
    var c := Skipping.On(s, e);
    var (_, inside, outer) := EnterContainer(c);
    assert OpenContainer(c).2 == inside;
    MembersStay(s, e, visits);
  }

  /** Visits of a container's members end where the container ends. */
  lemma {:induction false} MembersStay(s: Reader, e: Element, visits: seq<Visit>)
    requires s.Valid() && At(s.input, s.pos, Encode(e)) && e.Container?
    requires WellFormed(e, s.containerType, s.implicitProfile)
    ensures var c := Skipping.On(s, e);
            && c.Valid() && c.ElementType() == e.kind && IsContainerType(e.kind)
            && var inside := EnterContainer(c).1;
               var last := PerformAll(inside, visits);
            && last.containerType == e.kind
            && SkipToEndOfContainer(last) == SkipToEndOfContainer(inside)
            && SkipToEndOfContainer(last) == (NoError, OnClosing(Here(inside, e.members, |e.members|), e.closing))
    decreases visits, 2
  {
    hide HeadOf, Head, ReadElement, SkipToEndOfContainer, PerformAll, TypeCode, Here, Encode, EncodeAll;
    WellFormedIsSkippable(e, s.containerType, s.containerType, false, s.implicitProfile);
    ElementIsRead(s, e, false);
    FieldFits(e, s.containerType, false, s.implicitProfile);
    HeadStands(s, e);
    var inside := EnterContainer(Skipping.On(s, e)).1;
    AtConcat(s.input, inside.pos, EncodeAll(e.members), Head(e.closing, END_OF_CONTAINER, 0));
    StartsBefore(inside, e.members);
    var spot := VisitsStay(inside, inside, e.members, e.closing, Before(0), visits);
    ExitFromSpot(PerformAll(inside, visits), inside, e.members, e.closing, spot);
    ExitFromBefore(inside, e.members, e.closing, 0);
    SpotKeepsType(PerformAll(inside, visits), inside, e.members, e.closing, spot);
  }

  lemma SpotKeepsType(t: Reader, b: Reader, es: seq<Element>, closing: Tag, spot: Spot)
    requires IsAt(t, b, es, closing, spot)
    ensures t.containerType == b.containerType
  {
  }

  lemma StartsBefore(b: Reader, es: seq<Element>)
    ensures Here(b, es, 0) == b
  {
    assert es[..0] == [];
  }
}
