/** The byte ranges and the container stack that the dissector keeps while it moves. */
module ElementRanges {
  import opened Bytes
  import opened TlvFormat
  import opened ReaderSpec
  import opened Skipping
  import opened RoundTrip
  import opened SkipLanguage
  import Visits
  import D = DissectorSpec

  /** `d` stands on element `e`, whose encoding starts at `s`, and marks exactly its bytes. */
  ghost predicate Marks(d: D.Dissector, s: Reader, e: Element) {
    && d.reader == On(s, e)
    && d.elemStart == s.pos && d.elemLen == |Encode(e)|
    && At(s.input, d.elemStart, Encode(e))
  }

  // ---- Arbitrary bytes ----

  /** Each successful Next marks the full encoding of one element, for any input. */
  lemma NextMarks(d: D.Dissector) returns (e: Element)
    requires d.reader.Valid() && D.Next(d).0 == NoError
    ensures var s := Skip(d.reader).1;
            && Skip(d.reader) == (NoError, s) && s.Between()
            && Skippable(e, s.containerType, false, s.implicitProfile)
            && Marks(D.Next(d).1, s, e)
            && Skip(D.Next(d).1.reader) == (NoError, Past(s, e))
  {
    hide Skip, ReadElement, Skippable, Encode, HeadOf, At;
    var s := Skip(d.reader).1;
    SkipBetween(s);
    e := SkippedIsSkippable(s);
    PastPosition(s, e);
  }

  lemma PastPosition(s: Reader, e: Element)
    ensures Past(s, e).pos == s.pos + |Encode(e)| && Past(s, e).input == s.input
    ensures Past(s, e).containerType == s.containerType && Past(s, e).implicitProfile == s.implicitProfile
  {
  }

  /** The exact condition under which Next succeeds. */
  lemma NextSucceeds(d: D.Dissector)
    requires d.reader.Valid()
    ensures D.Next(d).0 == NoError <==>
            var (err, s) := Skip(d.reader);
            err == NoError &&
            exists e :: Skippable(e, s.containerType, false, s.implicitProfile) && At(s.input, s.pos, Encode(e))
  {
    hide Skip, ReadElement, Skippable, Encode, HeadOf, At;
    var (err, s) := Skip(d.reader);
    if D.Next(d).0 == NoError {
      var e := NextMarks(d);
    } else if err == NoError {
      SkipBetween(s);
      if e :| Skippable(e, s.containerType, false, s.implicitProfile) && At(s.input, s.pos, Encode(e)) {
        ElementIsRead(s, e, false);
        FieldFits(e, s.containerType, false, s.implicitProfile);
        SkipIsPast(s, e);
      }
    }
  }

  /**
    Consecutive ranges are adjacent, for any input, and whatever was done to the reader in
    between, as long as it can still be moved to the end of the element.
   */
  lemma SiblingsAreAdjacent(d: D.Dissector, between: D.Dissector)
    requires d.reader.Valid() && D.Next(d).0 == NoError
    requires between.reader.Valid() && Skip(between.reader) == Skip(D.Next(d).1.reader)
    ensures var marked := D.Next(d).1;
            D.Next(between).0 == NoError ==> D.Next(between).1.elemStart == marked.elemStart + marked.elemLen
  {
    hide Skip, ReadElement, Skippable, Encode, HeadOf, At;
    var e := NextMarks(d);
    PastPosition(Skip(d.reader).1, e);
    if D.Next(between).0 == NoError {
      var e' := NextMarks(between);
    }
  }

  /** The ranges marked by calling Next until it fails. */
  function AllRanges(d: D.Dissector): (r: (seq<(int, int)>, Error, D.Dissector))
    requires d.reader.Valid()
    ensures Advances(d.reader, r.2.reader)
    decreases |d.reader.input| - d.reader.pos
  {
    var (err, d') := D.Next(d);
    if err != NoError then ([], err, d')
    else
      var (ranges, err, last) := AllRanges(d');
      ([(d'.elemStart, d'.elemLen)] + ranges, err, last)
  }

  /** The ranges cut [from, to) into consecutive pieces. */
  predicate Tile(ranges: seq<(int, int)>, from: int, to: int) {
    if ranges == [] then from == to
    else ranges[0].0 == from && ranges[0].1 > 0 && Tile(ranges[1..], from + ranges[0].1, to)
  }

  /**
    For any input, the ranges of one container tile it up to the last start mark; if a
    closing byte stopped the run, that mark is where the closing byte begins.
   */
  lemma {:induction false} RangesTile(d: D.Dissector)
    requires d.reader.Valid() && Skip(d.reader).0 == NoError
    ensures var (ranges, err, last) := AllRanges(d);
            && Tile(ranges, Skip(d.reader).1.pos, last.elemStart)
            && (last.reader.ElementType() == END_OF_CONTAINER && err == EndOfTlv ==>
                  var closing := Head(ReportedTag(last.reader), END_OF_CONTAINER, 0);
                  At(last.reader.input, last.elemStart, closing) && last.reader.pos == last.elemStart + |closing|)
    decreases |d.reader.input| - d.reader.pos
  {
    hide Skip, ReadElement, Skippable, Encode, HeadOf, At, Head, ReportedTag, D.Next, Past;
    var s := Skip(d.reader).1;
    var (err, d') := D.Next(d);
    if err == NoError {
      var e := NextMarks(d);
      PastPosition(s, e);
      assert Encode(e) != [] by { EncodeNonempty(e); }
      RangesTile(d');
      var (ranges, _, last) := AllRanges(d');
      assert ([(d'.elemStart, d'.elemLen)] + ranges)[1..] == ranges;
    } else {
      LastNext(d, s);
    }
  }

  /** A Next that fails has marked where it began to read. */
  lemma LastNext(d: D.Dissector, s: Reader)
    requires d.reader.Valid() && Skip(d.reader) == (NoError, s) && D.Next(d).0 != NoError
    ensures var (err, last) := D.Next(d);
            && last.elemStart == s.pos
            && (last.reader.ElementType() == END_OF_CONTAINER && err == EndOfTlv ==>
                  var closing := Head(ReportedTag(last.reader), END_OF_CONTAINER, 0);
                  At(last.reader.input, last.elemStart, closing) && last.reader.pos == last.elemStart + |closing|)
  {
    hide Skip, ReadElement, At, Head, RecoverTag;
    SkipBetween(s);
    if ReadElement(s).0 == NoError {
      ReadHeadIsHead(s);
      assert Pow256(FieldBytes(END_OF_CONTAINER)) == 1;
    } else if ReadElement(s).0 == EndOfTlv {
      EndWithoutElement(s);
    }
  }

  lemma EncodeNonempty(e: Element)
    ensures |Encode(e)| > 0
  {
    hide EncodeAll;
  }

  lemma EndWithoutElement(s: Reader)
    requires s.Between() && ReadElement(s).0 == EndOfTlv
    ensures ReadElement(s).1.ElementType() == NOT_SPECIFIED
  {
    ExhaustedInput(s);
  }

  // ---- Well-formed containers ----

  function MemberRanges(es: seq<Element>, pos: int): seq<(int, int)> {
    if es == [] then [] else [(pos, |Encode(es[0])|)] + MemberRanges(es[1..], pos + |Encode(es[0])|)
  }

  /** In a well-formed container the ranges are those of its members, in order. */
  lemma {:induction false} RangesAreMembers(d: D.Dissector, s: Reader, es: seq<Element>, closing: Tag)
    requires d.reader.Valid() && Skip(d.reader) == (NoError, s)
    requires IsContainerType(s.containerType) && AllWellFormed(es, s.containerType, s.implicitProfile)
    requires ClosingOk(closing, s.implicitProfile)
    requires At(s.input, s.pos, EncodeAll(es) + Head(closing, END_OF_CONTAINER, 0))
    ensures AllRanges(d).0 == MemberRanges(es, s.pos) && AllRanges(d).1 == EndOfTlv
    decreases es
  {
    hide Skip, ReadElement, Encode, HeadOf, At, Head, WellFormed, Past, OnClosing, ClosingOk, On;
    SkipBetween(s);
    AtConcat(s.input, s.pos, EncodeAll(es), Head(closing, END_OF_CONTAINER, 0));
    if es == [] {
      NextIsOnClosing(s, s, closing);
    } else {
      AtConcat(s.input, s.pos, Encode(es[0]), EncodeAll(es[1..]));
      AtConcat(s.input, s.pos + |Encode(es[0])|, EncodeAll(es[1..]), Head(closing, END_OF_CONTAINER, 0));
      MarksWellFormed(d, s, es[0]);
      PastPosition(s, es[0]);
      RangesAreMembers(D.Next(d).1, Past(s, es[0]), es[1..], closing);
    }
  }

  /** Next onto a well-formed element. */
  lemma MarksWellFormed(d: D.Dissector, s: Reader, e: Element)
    requires d.reader.Valid() && Skip(d.reader) == (NoError, s)
    requires At(s.input, s.pos, Encode(e)) && WellFormed(e, s.containerType, s.implicitProfile)
    ensures D.Next(d) == (NoError, d.(lastItem := D.NO_ITEM, reader := On(s, e),
                                      elemStart := s.pos, elemLen := |Encode(e)|))
    ensures On(s, e).Valid() && Skip(On(s, e)) == (NoError, Past(s, e))
  {
    hide Skip, ReadElement, Encode, HeadOf, At, WellFormed;
    SkipBetween(s);
    NextIsOn(s, s, e);
    WellFormedIsSkippable(e, s.containerType, s.containerType, false, s.implicitProfile);
    SkipIsPast(s, e);
    PastPosition(s, e);
  }

  // ---- Balanced runs ----

  datatype Visit = VisitNext | VisitDupString | VisitNested(visits: seq<Visit>)

  /** What one call leaves behind, whether it succeeds or not. */
  function Perform(d: D.Dissector, v: Visit): (r: D.Dissector)
    requires d.reader.Valid()
    ensures Advances(d.reader, r.reader)
    decreases v, 1
  {
    match v
    case VisitNext => D.Next(d).1
    case VisitDupString => d.(reader := DupString(d.reader).2)
    case VisitNested(visits) =>
      var (err, inside) := D.EnterContainer(d);
      if err != NoError then inside else D.ExitContainer(PerformAll(inside, visits)).1
  }

  function PerformAll(d: D.Dissector, visits: seq<Visit>): (r: D.Dissector)
    requires d.reader.Valid()
    ensures Advances(d.reader, r.reader)
    decreases visits, 0
  {
    if visits == [] then d else PerformAll(Perform(d, visits[0]), visits[1..])
  }

  /** Whatever the bytes and the errors on the way, a balanced run gives the stack back. */
  lemma {:induction false} RunsKeepStack(d: D.Dissector, visits: seq<Visit>)
    requires d.reader.Valid()
    ensures var r := PerformAll(d, visits);
            r.stack == d.stack && r.items == d.items && r.baseOffset == d.baseOffset
    decreases visits, 0
  {
    hide D.Next, DupString, Perform;
    if visits != [] {
      VisitKeepsStack(d, visits[0]);
      RunsKeepStack(Perform(d, visits[0]), visits[1..]);
    }
  }

  /** A visited container's own range and item are current again when it has been left. */
  lemma {:induction false} VisitKeepsStack(d: D.Dissector, v: Visit)
    requires d.reader.Valid()
    ensures var r := Perform(d, v);
            r.stack == d.stack && r.items == d.items && r.baseOffset == d.baseOffset
    ensures v.VisitNested? ==> Perform(d, v) == d.(reader := Perform(d, v).reader)
    decreases v, 1
  {
    hide PerformAll, ReaderSpec.EnterContainer, ReaderSpec.ExitContainer;
    if v.VisitNested? {
      var (err, inside) := D.EnterContainer(d);
      if err == NoError {
        RunsKeepStack(inside, v.visits);
        var last := PerformAll(inside, v.visits);
        assert last.stack[..|last.stack| - 1] == d.stack;
      }
    }
  }

  /** Calls on the dissector move its reader from spot to spot of a well-formed container. */
  lemma {:induction false} RunStays(
    d: D.Dissector, b: Reader, es: seq<Element>, closing: Tag, spot: Visits.Spot, visits: seq<Visit>)
    returns (spot': Visits.Spot)
    requires Visits.Entered(b, es, closing) && Visits.IsAt(d.reader, b, es, closing, spot)
    ensures d.reader.Valid() && Visits.IsAt(PerformAll(d, visits).reader, b, es, closing, spot')
    decreases visits, 0
  {
    hide Perform, Visits.Entered, Visits.IsAt, Skip;
    var _ := Visits.SkipFromSpot(d.reader, b, es, closing, spot);
    if visits == [] {
      spot' := spot;
    } else {
      var between := CallStays(d, b, es, closing, spot, visits[0]);
      spot' := RunStays(Perform(d, visits[0]), b, es, closing, between, visits[1..]);
    }
  }

  lemma {:induction false} CallStays(
    d: D.Dissector, b: Reader, es: seq<Element>, closing: Tag, spot: Visits.Spot, v: Visit)
    returns (spot': Visits.Spot)
    requires Visits.Entered(b, es, closing) && Visits.IsAt(d.reader, b, es, closing, spot)
    ensures d.reader.Valid() && Visits.IsAt(Perform(d, v).reader, b, es, closing, spot')
    decreases v, 1
  {
    hide Skip, D.Next, DupString, D.ExitContainer, Visits.Entered, Visits.Here, Encode, HeadOf, PerformAll, At,
         WellFormed;
    match v
    case VisitNext => spot' := NextStays(d, b, es, closing, spot);
    case VisitDupString => spot' := DupStringStays(d, b, es, closing, spot);
    case VisitNested(visits) =>
      spot' := Visits.SkipFromSpot(d.reader, b, es, closing, spot);
      if IsContainerType(d.reader.ElementType()) {
        Visits.OnlyMembersAreContainers(d.reader, b, es, closing, spot);
        Visits.Ahead(b, es, closing, spot.i);
        ContainerIsLeft(d, Visits.Here(b, es, spot.i), es[spot.i], visits);
      } else {
        spot' := spot;
      }
  }

  lemma NextStays(d: D.Dissector, b: Reader, es: seq<Element>, closing: Tag, spot: Visits.Spot)
    returns (spot': Visits.Spot)
    requires Visits.Entered(b, es, closing) && Visits.IsAt(d.reader, b, es, closing, spot)
    ensures d.reader.Valid() && Visits.IsAt(D.Next(d).1.reader, b, es, closing, spot')
  {
    hide Skip, ReaderSpec.Next, Visits.Entered, Visits.Here, Encode, HeadOf, At, OnClosing;
    var between := Visits.SkipFromSpot(d.reader, b, es, closing, spot);
    if spot.AtEnd? {
      spot' := between;
    } else {
      spot' := Visits.NextFromSpot(Skip(d.reader).1, b, es, closing, between);
    }
  }

  lemma DupStringStays(d: D.Dissector, b: Reader, es: seq<Element>, closing: Tag, spot: Visits.Spot)
    returns (spot': Visits.Spot)
    requires Visits.Entered(b, es, closing) && Visits.IsAt(d.reader, b, es, closing, spot)
    ensures d.reader.Valid() && Visits.IsAt(DupString(d.reader).2, b, es, closing, spot')
  {
    hide Skip, Visits.Entered, Visits.IsAt;
    spot' := Visits.SkipFromSpot(d.reader, b, es, closing, spot);
    if HasLength(d.reader.ElementType()) && d.reader.lenOrVal < 0x1_0000_0000 {
      spot' := Visits.GetBytesFromSpot(d.reader, b, es, closing, spot, d.reader.lenOrVal);
    } else {
      spot' := spot;
    }
  }

  /**
    The bracket: entering a well-formed container, any balanced run inside it, and exiting
    leaves everything as it was except that the reader is behind the container; if the range
    was marked, that is exactly its end.
   */
  lemma {:induction false} ContainerIsLeft(d: D.Dissector, s: Reader, e: Element, visits: seq<Visit>)
    requires s.Valid() && At(s.input, s.pos, Encode(e)) && e.Container?
    requires WellFormed(e, s.containerType, s.implicitProfile) && d.reader == On(s, e)
    ensures d.reader.Valid()
    ensures Perform(d, VisitNested(visits)) == d.(reader := Past(s, e))
    ensures Marks(d, s, e) ==> Perform(d, VisitNested(visits)).reader.pos == d.elemStart + d.elemLen
    decreases visits, 1
  {
    hide HeadOf, Head, ReadElement, SkipToEndOfContainer, PerformAll, TypeCode, Encode, EncodeAll, D.ExitContainer,
         Visits.Here;
    WellFormedIsSkippable(e, s.containerType, s.containerType, false, s.implicitProfile);
    ElementIsRead(s, e, false);
    FieldFits(e, s.containerType, false, s.implicitProfile);
    HeadStands(s, e);
    var inside := D.EnterContainer(d).1;
    AtConcat(s.input, inside.reader.pos, EncodeAll(e.members), Head(e.closing, END_OF_CONTAINER, 0));
    Visits.StartsBefore(inside.reader, e.members);
    var spot := RunStays(inside, inside.reader, e.members, e.closing, Visits.Before(0), visits);
    RunsKeepStack(inside, visits);
    LeavesSpot(d, s, e, PerformAll(inside, visits), spot);
    VisitKeepsStack(d, VisitNested(visits));
    PastPosition(s, e);
  }

  /** Exiting from any spot inside `e`. */
  lemma LeavesSpot(d: D.Dissector, s: Reader, e: Element, last: D.Dissector, spot: Visits.Spot)
    requires s.Valid() && At(s.input, s.pos, Encode(e)) && e.Container?
    requires WellFormed(e, s.containerType, s.implicitProfile) && d.reader == On(s, e)
    requires d.reader.Valid() && D.EnterContainer(d).0 == NoError
    requires var inside := D.EnterContainer(d).1;
             && Visits.Entered(inside.reader, e.members, e.closing)
             && Visits.IsAt(last.reader, inside.reader, e.members, e.closing, spot)
             && last.stack == inside.stack
    ensures last.reader.Valid() && D.ExitContainer(last).1.reader == Past(s, e)
  {
    hide HeadOf, Head, ReadElement, SkipToEndOfContainer, TypeCode, Encode, EncodeAll, Visits.Here, Visits.IsAt,
         Visits.Entered;
    var inside := D.EnterContainer(d).1.reader;
    Visits.ExitFromSpot(last.reader, inside, e.members, e.closing, spot);
    Visits.EarlyExitIsSkip(s, e, []);
    Visits.ExitFromBefore(inside, e.members, e.closing, 0);
    Visits.StartsBefore(inside, e.members);
  }
}
