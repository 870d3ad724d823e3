/** The tag rules of VerifyElement, on tags as they are written. */
module TagRules {
  import opened Bytes
  import opened TlvFormat
  import opened ReaderSpec
  import opened Skipping

  /** No tag is written, or one whose packed number is all ones. */
  predicate LooksUntagged(t: Tag) {
    t == Anonymous || t == Full64(0xFFFF, 0xFFFF, 0xFFFF_FFFF)
  }

  /** The tag is implicit and there is no profile for it, or its packed number says so. */
  predicate LooksUnknown(t: Tag, profile: nat) {
    || ((t.Implicit16? || t.Implicit32?) && profile == PROFILE_NOT_SPECIFIED)
    || t == Full64(0xFFFF, 0xFFFF, 0xFFFF_FFFE)
  }

  /** A context tag, or a fully qualified one of vendor and profile 0xFFFF with a number below 256. */
  predicate LooksContext(t: Tag) {
    || t.Context?
    || ((t.Full48? || t.Full64?) && t.vendor == 0xFFFF && t.profile == 0xFFFF && t.num < 0x100)
  }

  predicate IsContext(containerType: int) {
    containerType in {NOT_SPECIFIED, STRUCTURE, PATH, ARRAY, UNKNOWN_CONTAINER}
  }

  /** Which tags a container takes; a container of unknown type takes all. */
  predicate Fits(t: Tag, containerType: int) {
    && (containerType == ARRAY ==> LooksUntagged(t))
    && (containerType in {STRUCTURE, PATH} ==> !LooksUntagged(t))
    && (containerType == NOT_SPECIFIED ==> !LooksContext(t))
  }

  lemma NumberLooks(t: Tag, profile: nat)
    requires t.Ok() && profile < 0x1_0000_0000
    ensures t.Number(profile) == ANONYMOUS_TAG <==> LooksUntagged(t)
    ensures t.Number(profile) == UNKNOWN_IMPLICIT_TAG <==> LooksUnknown(t, profile)
    ensures IsContextTag(t.Number(profile)) <==> LooksContext(t)
  {
  }

  /** The rules in every kind of container. */
  lemma AllowedTags(t: Tag, containerType: int, profile: nat)
    requires t.Ok() && profile < 0x1_0000_0000
    ensures TagAllowed(t.Number(profile), containerType) <==>
            !LooksUnknown(t, profile) && IsContext(containerType) && Fits(t, containerType)
  {
    hide Tag.Number, IsContextTag, LooksUntagged, LooksUnknown, LooksContext;
    NumberLooks(t, profile);
  }

  /** The outcome of VerifyElement, error by error. */
  lemma VerifyOutcome(s: Reader, t: Tag)
    requires s.Valid() && t.Ok() && s.implicitProfile < 0x1_0000_0000 && s.tag == t.Number(s.implicitProfile)
    ensures s.ElementType() != END_OF_CONTAINER ==>
              VerifyElement(s) ==
              if LooksUnknown(t, s.implicitProfile) then UnknownImplicitTlvTag
              else if !IsContext(s.containerType) then IncorrectState
              else if !Fits(t, s.containerType) then InvalidTlvTag
              else if 0x0C <= s.ElementType() <= 0x13 && s.lenOrVal % 0x1_0000_0000 > s.maxLen - s.pos then TlvUnderrun
              else NoError
    ensures s.ElementType() == END_OF_CONTAINER ==>
              VerifyElement(s) ==
              if s.containerType == NOT_SPECIFIED then InvalidTlvElement
              else if !LooksUntagged(t) then InvalidTlvTag
              else NoError
  {
    hide Tag.Number, IsContextTag, LooksUntagged, LooksUnknown, LooksContext;
    NumberLooks(t, s.implicitProfile);
  }

  /** The outcome of reading a head at all, on arbitrary bytes. */
  lemma ReadOutcome(s: Reader)
    requires s.Valid()
    ensures s.pos == |s.input| <==> ReadElement(s).0 == EndOfTlv
    ensures s.pos < |s.input| && s.input[s.pos] % 32 > 0x18 ==> ReadElement(s).0 == InvalidTlvElement
    ensures s.pos < |s.input| && s.input[s.pos] % 32 <= 0x18 && HeadBytes(s.input[s.pos]) > |s.input| - s.pos ==>
              ReadElement(s) == (TlvUnderrun, s.(control := s.input[s.pos], pos := |s.input|))
  {
    hide HeadBytes, TagOfHead, FieldRead, TagAllowed;
  }

  /** A path takes no untagged member. */
  lemma UntaggedInPathFails()
    ensures var (err, u) := Next(Init([0x17, 0x04, 0x05, 0x18]));
            && err == NoError && EnterContainer(u).0 == NoError
            && Next(EnterContainer(u).1).0 == InvalidTlvTag
  {
    hide ReadElement, FieldRead, Head, HeadBytes, VerifyElement, SkipToEndOfContainer;
    var s := Init([0x17, 0x04, 0x05, 0x18]);
    HeadBytesAre();
    assert s.input[0..1] == [0x17] && s.input[1..3] == [0x04, 0x05];
    HeadIsRead(s, Anonymous, PATH, 0);
    VerifyOutcome(ReadElement(s).1, Anonymous);
    var inside := EnterContainer(ReadElement(s).1).1;
    HeadIsRead(inside, Anonymous, 0x04, 5);
    VerifyOutcome(ReadElement(inside).1, Anonymous);
  }

  lemma HeadBytesAre()
    ensures Head(Anonymous, PATH, 0) == [0x17] && Head(Anonymous, 0x04, 5) == [0x04, 0x05]
    ensures Pow256(FieldBytes(PATH)) == 1 && Pow256(FieldBytes(0x04)) == 0x100
  {
    assert WriteLE(5, 1) == [5];
  }
}
