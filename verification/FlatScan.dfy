/**
  The skipping loop keeps one counter and one container type; `DescendMembers` walks the
  same bytes recursively. The two agree on every input, errors and end states included.
 */
module FlatScan {
  import opened Bytes
  import opened TlvFormat
  import opened ReaderSpec

  /**
    Reads members up to and including the end byte of the container that `s` is in.
    Leaving a nested container restores `outer` directly inside the skipped container
    (`atTop`), and otherwise forgets the container type.
   */
  function DescendMembers(s: Reader, atTop: bool, outer: int): (r: (Error, Reader))
    requires s.Valid()
    ensures Advances(s, r.1)
    ensures r.0 == NoError ==> r.1.ElementType() == END_OF_CONTAINER
    decreases |s.input| - s.pos
  {
    var (err, t) := ReadFollowing(s);
    if err != NoError then (err, t)
    else if t.ElementType() == END_OF_CONTAINER then (NoError, t)
    else if IsContainerType(t.ElementType()) then
      var (err, u) := DescendMembers(t.(containerType := t.ElementType()), false, outer);
      if err != NoError then (err, u)
      else DescendMembers(u.(containerType := if atTop then outer else UNKNOWN_CONTAINER), atTop, outer)
    else DescendMembers(t, atTop, outer)
  }

  /** What is left of the loop at `nestLevel`, entered between two elements. */
  function Resume(s: Reader, nestLevel: nat, outer: int): (Error, Reader)
    requires s.Valid()
  {
    var (err, t) := ReadFollowing(s);
    if err != NoError then (err, t) else SkipLoop(t, nestLevel, outer)
  }

  /** The counter's level `nestLevel` is `nestLevel + 1` recursive calls still to return. */
  lemma {:induction false} LoopDescends(s: Reader, nestLevel: nat, outer: int)
    requires s.Valid()
    ensures var (err, t) := DescendMembers(s, nestLevel == 0, outer);
            Resume(s, nestLevel, outer) ==
            if err != NoError then (err, t)
            else if nestLevel == 0 then (NoError, t)
            else Resume(t.(containerType := if nestLevel == 1 then outer else UNKNOWN_CONTAINER), nestLevel - 1, outer)
    decreases |s.input| - s.pos
  {
    hide ReadFollowing;
    var (err, t) := ReadFollowing(s);
    if err == NoError && t.ElementType() != END_OF_CONTAINER {
      if IsContainerType(t.ElementType()) {
        var inside := t.(containerType := t.ElementType());
        assert Resume(s, nestLevel, outer) == Resume(inside, nestLevel + 1, outer);
        LoopDescends(inside, nestLevel + 1, outer);
        var (err', u) := DescendMembers(inside, false, outer);
        if err' == NoError {
          LoopDescends(u.(containerType := if nestLevel == 0 then outer else UNKNOWN_CONTAINER), nestLevel, outer);
        }
      } else {
        assert t.(containerType := t.containerType) == t;
        assert Resume(s, nestLevel, outer) == Resume(t, nestLevel, outer);
        LoopDescends(t, nestLevel, outer);
      }
    }
  }

  /** Between two members, or on one that is no container, skipping out is the descent. */
  lemma SkipIsDescent(s: Reader)
    requires s.Valid() && s.ElementType() != END_OF_CONTAINER && !IsContainerType(s.ElementType())
    ensures SkipToEndOfContainer(s) == DescendMembers(s.(containerOpen := false), true, s.containerType)
  {
    hide ReadFollowing;
    var t := s.(containerOpen := false);
    assert t.(containerType := t.containerType) == t;
    LoopDescends(t, 0, s.containerType);
  }

  /** On a member that is a container, skipping out descends into it first. */
  lemma SkipFromContainerIsDescent(s: Reader)
    requires s.Valid() && IsContainerType(s.ElementType())
    ensures var inside := s.(containerOpen := false, containerType := s.ElementType());
            var (err, t) := DescendMembers(inside, false, s.containerType);
            SkipToEndOfContainer(s) ==
            if err != NoError then (err, t)
            else DescendMembers(t.(containerType := s.containerType), true, s.containerType)
  {
    hide ReadFollowing;
    var t := s.(containerOpen := false, containerType := s.ElementType());
    LoopDescends(t, 1, s.containerType);
    var (err, u) := DescendMembers(t, false, s.containerType);
    if err == NoError {
      LoopDescends(u.(containerType := s.containerType), 0, s.containerType);
    }
  }
}
