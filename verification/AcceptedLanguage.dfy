/** The main results about whole inputs: which bytes are accepted, and by which operation. */
module AcceptedLanguage {
  import opened Bytes
  import opened TlvFormat
  import opened ReaderSpec
  import opened FlatScan
  import opened Skipping
  import opened RoundTrip

  /** A fresh reader over `input` whose implicit profile has been set. */
  function Start(input: seq<Byte>, profile: nat): (s: Reader)
    requires |input| < 0x1_0000_0000
    ensures s.Between()
  {
    Init(input).(implicitProfile := profile)
  }

  /**
    The full walk over any input returns `es` exactly when the input is the encoding of `es`
    and every member passes `VerifyElement` in its container.
   */
  lemma WalkAcceptsEncodings(input: seq<Byte>, profile: nat, es: seq<Element>)
    requires |input| < 0x1_0000_0000
    ensures var r := WalkMembers(Start(input, profile));
            (r.Ok? && r.value.0 == es) <==> (input == EncodeAll(es) && AllWellFormed(es, NOT_SPECIFIED, profile))
    ensures var r := WalkMembers(Start(input, profile));
            r.Ok? ==> r.value.1.pos == |input|
  {
    hide Skip, WalkMembers, EncodeAll, AllWellFormed;
    var s := Start(input, profile);
    SkipBetween(s);
    if WalkMembers(s).Ok? {
      EncodeMembers(s, s);
      var (found, last) := WalkMembers(s).value;
      PastAllPosition(s, found);
      OnlyExhaustionEnds(PastAll(s, found));
      assert input[0..|input|] == input;
    }
    if input == EncodeAll(es) && AllWellFormed(es, NOT_SPECIFIED, profile) {
      assert input[0..|input|] == input;
      PastAllPosition(s, es);
      OnlyExhaustionEnds(PastAll(s, es));
      DecodeMembers(s, s, es, PastAll(s, es));
    }
  }

  /** Outside every container, Next reports the end exactly when the input is used up. */
  lemma OnlyExhaustionEnds(s: Reader)
    requires s.Between() && s.containerType == NOT_SPECIFIED
    ensures Next(s).0 == EndOfTlv <==> s.pos == |s.input|
    ensures s.pos == |s.input| ==> Next(s) == (EndOfTlv, s)
  {
    SkipBetween(s);
    if s.pos < |s.input| && ReadElement(s).0 == NoError {
      hide ReadElement;
      ReadHeadIsHead(s);
    }
  }

  /** No two well-formed documents share an encoding. */
  lemma EncodingIsUnambiguous(es: seq<Element>, fs: seq<Element>, profile: nat)
    requires |EncodeAll(es)| < 0x1_0000_0000
    requires AllWellFormed(es, NOT_SPECIFIED, profile) && AllWellFormed(fs, NOT_SPECIFIED, profile)
    requires EncodeAll(es) == EncodeAll(fs)
    ensures es == fs
  {
    WalkAcceptsEncodings(EncodeAll(es), profile, es);
    WalkAcceptsEncodings(EncodeAll(fs), profile, fs);
  }

  /**
    Whatever the full walk accepts, the flat skip accepts with the same length read: Skip
    from the element's head, and Skip from where the walk left the reader, agree.
   */
  lemma WalkedIsSkipped(t: Reader)
    requires t.Valid() && Skip(t).0 == NoError && Next(t).0 == NoError
    requires Next(t).1.control < 0x100 && Walk(Next(t).1).Ok?
    ensures var after := Walk(Next(t).1).value.1;
            && Skip(Next(t).1) == Skip(after)
            && Skip(after).0 == NoError && after.pos == Skip(Next(t).1).1.pos
  {
    hide Skip, Next, Walk, Encode, WellFormed;
    EncodeElement(t, Skip(t).1);
    var e := Walk(Next(t).1).value.0;
    var s := Skip(t).1;
    WellFormedIsSkippable(e, s.containerType, s.containerType, false, s.implicitProfile);
    SkipIsPast(s, e);
    SkipAfterVisit(Skip(t).1, e);
    VisitedPosition(Skip(t).1, e);
  }

  lemma VisitedPosition(s: Reader, e: Element)
    ensures Visited(s, e).pos == s.pos + |Encode(e)|
  {
  }
}
