/**
  What each reader operation does to one contiguous input. A `Reader` is the reader's
  state with the buffers abstracted away: `pos` is the number of bytes read so far.
 */
module ReaderSpec {
  import opened Bytes
  import opened TlvFormat

  datatype Error =
    | NoError
    | EndOfTlv
    | TlvUnderrun
    | InvalidTlvElement
    | InvalidTlvTag
    | UnknownImplicitTlvTag
    | UnexpectedTlvElement
    | WrongTlvType
    | BufferTooSmall
    | IncorrectState
    | NoMemory
    // No error code: the program would write through a null pointer, and nothing follows.
    | NullBuffer

  /** mControlByte when the reader is not on an element. */
  const CONTROL_NOT_SPECIFIED := 0xFFFF

  datatype Reader = Reader(
    input: seq<Byte>,
    maxLen: nat,
    implicitProfile: nat,
    pos: nat,
    containerType: int,
    control: nat,
    tag: nat,
    lenOrVal: nat,
    containerOpen: bool)
  {
    predicate Valid() {
      && pos <= |input| <= maxLen < 0x1_0000_0000
      && (control < 0x100 || control == CONTROL_NOT_SPECIFIED)
    }

    function ElementType(): int {
      if control == CONTROL_NOT_SPECIFIED then NOT_SPECIFIED else control % 32
    }

    /** ClearElementState. */
    function Clear(): Reader {
      this.(tag := ANONYMOUS_TAG, control := CONTROL_NOT_SPECIFIED, lenOrVal := 0)
    }

    /** Between elements: before the first, after one, or at the start of a container. */
    predicate Between() {
      Valid() && this == Clear()
    }
  }

  /** Same input and configuration, and no byte given back. */
  predicate Advances(s: Reader, t: Reader) {
    && t.Valid()
    && t.input == s.input && t.maxLen == s.maxLen && t.implicitProfile == s.implicitProfile
    && s.pos <= t.pos
  }

  function Init(input: seq<Byte>): (s: Reader)
    requires |input| < 0x1_0000_0000
    ensures s.Between()
  {
    Reader(input, |input|, PROFILE_NOT_SPECIFIED, 0, NOT_SPECIFIED, CONTROL_NOT_SPECIFIED, ANONYMOUS_TAG, 0, false)
  }

  /** The length the reader acts on: a length field narrowed to 32 bits. */
  function DataLength(lenOrVal: nat): (n: nat) {
    lenOrVal % 0x1_0000_0000
  }

  function HeadBytes(control: nat): (n: nat)
    requires control < 0x100
    ensures 1 <= n <= 17
  {
    1 + TagBytes(control / 32) + FieldBytes(control % 32)
  }

  function ReadData(s: Reader, len: nat): (r: (Error, Reader))
    requires s.Valid()
    ensures Advances(s, r.1)
  {
    if len <= |s.input| - s.pos then (NoError, s.(pos := s.pos + len))
    else (TlvUnderrun, s.(pos := |s.input|))
  }

  function VerifyElement(s: Reader): Error
    requires s.Valid()
  {
    var t := s.ElementType();
    if t == END_OF_CONTAINER then
      if s.containerType == NOT_SPECIFIED then InvalidTlvElement
      else if s.tag != ANONYMOUS_TAG then InvalidTlvTag
      else NoError
    else if s.tag == UNKNOWN_IMPLICIT_TAG then UnknownImplicitTlvTag
    else if s.containerType !in {NOT_SPECIFIED, STRUCTURE, PATH, ARRAY, UNKNOWN_CONTAINER} then IncorrectState
    else if !TagAllowed(s.tag, s.containerType) then InvalidTlvTag
    else if HasLength(t) && s.maxLen - s.pos < DataLength(s.lenOrVal) then TlvUnderrun
    else NoError
  }

  function TagOfHead(head: seq<Byte>): Tag
    requires |head| > 0 && |head| == HeadBytes(head[0])
  {
    DecodeTag(head[0] / 32, head[1..1 + TagBytes(head[0] / 32)])
  }

  function FieldOfHead(head: seq<Byte>): nat
    requires |head| > 0 && |head| == HeadBytes(head[0])
  {
    ReadLE(head[1 + TagBytes(head[0] / 32)..])
  }

  /** What is read as the length or value: the bytes behind those read for the tag. */
  function FieldRead(head: seq<Byte>, implicitProfile: nat): nat
    requires |head| > 0 && |head| == HeadBytes(head[0])
  {
    if TagIsUnread(head[0] / 32, implicitProfile) then ReadLE(head[1..1 + FieldBytes(head[0] % 32)])
    else FieldOfHead(head)
  }

  /** The state after an element head has been taken from the input. */
  function AfterHead(s: Reader, head: seq<Byte>): (t: Reader)
    requires s.Valid() && |head| > 0 && |head| == HeadBytes(head[0]) && s.pos + |head| <= |s.input|
    ensures Advances(s, t) && s.pos < t.pos
  {
    s.(pos := s.pos + |head|, control := head[0], tag := TagOfHead(head).Number(s.implicitProfile),
       lenOrVal := FieldRead(head, s.implicitProfile))
  }

  function ReadElement(s: Reader): (r: (Error, Reader))
    requires s.Valid()
    ensures Advances(s, r.1)
    ensures r.0 == NoError ==> s.pos < r.1.pos
  {
    if s.pos == |s.input| then (EndOfTlv, s)
    else
      var c := s.input[s.pos];
      var n := HeadBytes(c);
      if c % 32 > END_OF_CONTAINER then (InvalidTlvElement, s.(control := c))
      else if n > |s.input| - s.pos then (TlvUnderrun, s.(control := c, pos := |s.input|))
      else
        var t := AfterHead(s, s.input[s.pos..s.pos + n]);
        (VerifyElement(t), t)
  }

  function SkipData(s: Reader): (r: (Error, Reader))
    requires s.Valid()
    ensures Advances(s, r.1)
  {
    if HasLength(s.ElementType()) then ReadData(s, DataLength(s.lenOrVal)) else (NoError, s)
  }

  /** SkipData then ReadElement: the tail of one round of the skipping loop. */
  function ReadFollowing(s: Reader): (r: (Error, Reader))
    requires s.Valid()
    ensures Advances(s, r.1)
    ensures r.0 == NoError ==> s.pos < r.1.pos
  {
    var (err, t) := SkipData(s);
    if err != NoError then (err, t) else ReadElement(t)
  }

  /** The loop of `SkipToEndOfContainer`: one nesting counter, one container type. */
  function SkipLoop(s: Reader, nestLevel: nat, outer: int): (r: (Error, Reader))
    requires s.Valid()
    ensures Advances(s, r.1)
    decreases |s.input| - s.pos
  {
    var t := s.ElementType();
    if t == END_OF_CONTAINER && nestLevel == 0 then (NoError, s)
    else
      var level := if t == END_OF_CONTAINER then nestLevel - 1
                   else if IsContainerType(t) then nestLevel + 1 else nestLevel;
      var ctx := if t == END_OF_CONTAINER then (if level == 0 then outer else UNKNOWN_CONTAINER)
                 else if IsContainerType(t) then t else s.containerType;
      var (err, u) := ReadFollowing(s.(containerType := ctx));
      if err != NoError then (err, u) else SkipLoop(u, level, outer)
  }

  function SkipToEndOfContainer(s: Reader): (r: (Error, Reader))
    requires s.Valid()
    ensures Advances(s, r.1)
  {
    SkipLoop(s.(containerOpen := false), 0, s.containerType)
  }

  function EnterContainer(s: Reader): (r: (Error, Reader, int))
    requires s.Valid()
    ensures Advances(s, r.1) && r.1.pos == s.pos
  {
    var t := s.ElementType();
    if !IsContainerType(t) then (IncorrectState, s, 0)
    else (NoError, s.Clear().(containerType := t, containerOpen := false), s.containerType)
  }

  function ExitContainer(s: Reader, outer: int): (r: (Error, Reader))
    requires s.Valid()
    ensures Advances(s, r.1)
  {
    var (err, t) := SkipToEndOfContainer(s);
    if err != NoError then (err, t) else (NoError, t.Clear().(containerType := outer))
  }

  function Skip(s: Reader): (r: (Error, Reader))
    requires s.Valid()
    ensures Advances(s, r.1)
    ensures r.0 == NoError ==> r.1.Between()
  {
    var t := s.ElementType();
    if t == END_OF_CONTAINER then (EndOfTlv, s)
    else if IsContainerType(t) then
      var (_, inside, outer) := EnterContainer(s);
      ExitContainer(inside, outer)
    else
      var (err, u) := SkipData(s);
      if err != NoError then (err, u) else (NoError, u.Clear())
  }

  function Next(s: Reader): (r: (Error, Reader))
    requires s.Valid()
    ensures Advances(s, r.1)
    ensures r.0 == NoError ==> s.pos < r.1.pos
  {
    var (err, t) := Skip(s);
    if err != NoError then (err, t)
    else
      var (err, u) := ReadElement(t);
      if err != NoError then (err, u)
      else if u.ElementType() == END_OF_CONTAINER then (EndOfTlv, u)
      else (NoError, u)
  }

  /** Next(expectedType, expectedTag). */
  function NextExpecting(s: Reader, expectedType: int, expectedTag: nat): (r: (Error, Reader))
    requires s.Valid()
    ensures Advances(s, r.1)
  {
    var (err, t) := Next(s);
    if err != NoError then (err, t)
    else if GetType(t) != expectedType then (WrongTlvType, t)
    else if t.tag != expectedTag then (UnexpectedTlvElement, t)
    else (NoError, t)
  }

  function GetType(s: Reader): int {
    var t := s.ElementType();
    if t == END_OF_CONTAINER then NOT_SPECIFIED
    else if t == 0x0A || t == 0x0B then 0x0A
    else if t == NOT_SPECIFIED || t >= 0x14 then t
    else t - t % 4
  }

  function GetLength(s: Reader): nat {
    if HasLength(s.ElementType()) then DataLength(s.lenOrVal) else 0
  }

  /** Sign-extends `v mod range` (range 2^8, 2^16 or 2^32) to a 64-bit pattern. */
  function SignExtend(v: nat, range: nat): int
    requires range > 0
  {
    var low := v % range;
    if 2 * low < range then low else 0x1_0000_0000_0000_0000 - range + low
  }

  /** Get(uint64_t&). */
  function GetU64(s: Reader): (r: (Error, int)) {
    var t := s.ElementType();
    if t == 0x00 then (NoError, SignExtend(s.lenOrVal, 0x100))
    else if t == 0x01 then (NoError, SignExtend(s.lenOrVal, 0x1_0000))
    else if t == 0x02 then (NoError, SignExtend(s.lenOrVal, 0x1_0000_0000))
    else if 0x03 <= t <= 0x07 then (NoError, s.lenOrVal)
    else (WrongTlvType, 0)
  }

  /** The 64-bit pattern `v` read as int64_t. */
  function ToInt64(v: int): int {
    if v < 0x8000_0000_0000_0000 then v else v - 0x1_0000_0000_0000_0000
  }

  /** Get(int64_t&). */
  function GetI64(s: Reader): (Error, int) {
    var (err, v) := GetU64(s);
    (err, ToInt64(v))
  }

  /** Get(bool&). */
  function GetBool(s: Reader): (Error, bool) {
    var t := s.ElementType();
    if t == 0x08 then (NoError, false) else if t == 0x09 then (NoError, true) else (WrongTlvType, false)
  }

  /** Each getter takes exactly the elements of its type. */
  lemma GettersMatchTypes(s: Reader)
    requires s.Valid()
    ensures GetU64(s).0 == GetI64(s).0 == if GetType(s) in {0x00, 0x04} then NoError else WrongTlvType
    ensures GetBool(s).0 == if GetType(s) == 0x08 then NoError else WrongTlvType
  {
  }

  lemma StringGetters(s: Reader, bufSize: nat)
    requires s.Valid()
    ensures GetBytes(s, bufSize).0 == WrongTlvType <==> GetType(s) !in {0x0C, 0x10}
    ensures DupString(s).0 == WrongTlvType <==> GetType(s) !in {0x0C, 0x10}
    ensures GetDataPtr(s).0 == WrongTlvType <==> GetType(s) !in {0x0C, 0x10}
  {
  }

  /** GetBytes: the bytes copied out, and the state after. */
  function GetBytes(s: Reader, bufSize: nat): (r: (Error, seq<Byte>, Reader))
    requires s.Valid()
    ensures Advances(s, r.2)
  {
    if !HasLength(s.ElementType()) then (WrongTlvType, [], s)
    else if s.lenOrVal > bufSize then (BufferTooSmall, [], s)
    else
      var (err, t) := ReadData(s, DataLength(s.lenOrVal));
      if err != NoError then (err, [], t)
      else (NoError, s.input[s.pos..t.pos], t.(lenOrVal := 0))
  }

  /** DupString: a copy of the current string, which counts as read afterwards. */
  function DupString(s: Reader): (r: (Error, seq<Byte>, Reader))
    requires s.Valid()
    ensures Advances(s, r.2)
  {
    if !HasLength(s.ElementType()) then (WrongTlvType, [], s)
    else if s.lenOrVal >= 0x1_0000_0000 then (NoMemory, [], s)
    else
      var (err, t) := ReadData(s, s.lenOrVal);
      if err != NoError then (err, [], t) else (NoError, s.input[s.pos..t.pos], t.(lenOrVal := 0))
  }

  /** GetDataPtr over one buffer: the bytes the returned pointer addresses. */
  function GetDataPtr(s: Reader): (Error, seq<Byte>)
    requires s.Valid()
  {
    if !HasLength(s.ElementType()) then (WrongTlvType, [])
    else if s.pos == |s.input| then (TlvUnderrun, [])
    else if |s.input| - s.pos < DataLength(s.lenOrVal) then (TlvUnderrun, [])
    else (NoError, s.input[s.pos..s.pos + DataLength(s.lenOrVal)])
  }

  /** OpenContainer: the parent, and the reader for the members. */
  function OpenContainer(s: Reader): (r: (Error, Reader, Reader))
    requires s.Valid()
    ensures r.1.Valid() && r.2.Valid()
  {
    var t := s.ElementType();
    if !IsContainerType(t) then (IncorrectState, s, s)
    else (NoError, s.(containerOpen := true), s.Clear().(containerType := t, containerOpen := false))
  }

  /** CloseContainer: the parent and the member reader afterwards. */
  function CloseContainer(parent: Reader, child: Reader): (r: (Error, Reader, Reader))
    requires parent.Valid() && child.Valid()
    ensures r.1.Valid() || r.0 == NoError
    ensures r.2.Valid()
  {
    if !parent.containerOpen || child.containerType != parent.ElementType() then (IncorrectState, parent, child)
    else
      var (err, t) := SkipToEndOfContainer(child);
      if err != NoError then (err, parent, t)
      else (NoError, parent.Clear().(input := t.input, pos := t.pos, maxLen := t.maxLen), t)
  }

  /** Only a container is entered or opened. */
  lemma ContainersAreEntered(s: Reader)
    requires s.Valid()
    ensures EnterContainer(s).0 == if GetType(s) in {0x15, 0x16, 0x17} then NoError else IncorrectState
    ensures OpenContainer(s).0 == if GetType(s) in {0x15, 0x16, 0x17} then NoError else IncorrectState
  {
  }

  /** A container is closed once: the parent is no longer on it. */
  lemma ClosedOnce(parent: Reader, child: Reader)
    requires parent.Valid() && child.Valid() && child.containerType != NOT_SPECIFIED
    ensures var (err, parent', child') := CloseContainer(parent, child);
            err == NoError && parent'.Valid() ==> CloseContainer(parent', child').0 == IncorrectState
  {
    hide SkipLoop;
    MemberReaderStays(child.(containerOpen := false), 0, child.containerType);
  }

  lemma {:induction false} MemberReaderStays(s: Reader, nestLevel: nat, outer: int)
    requires s.Valid() && s.containerType != NOT_SPECIFIED && outer != NOT_SPECIFIED
    ensures SkipLoop(s, nestLevel, outer).1.containerType != NOT_SPECIFIED
    decreases |s.input| - s.pos
  {
    hide HeadBytes, TagOfHead, FieldRead, VerifyElement;
    var t := s.ElementType();
    if t != END_OF_CONTAINER || nestLevel != 0 {
      var level := if t == END_OF_CONTAINER then nestLevel - 1
                   else if IsContainerType(t) then nestLevel + 1 else nestLevel;
      var ctx := if t == END_OF_CONTAINER then (if level == 0 then outer else UNKNOWN_CONTAINER)
                 else if IsContainerType(t) then t else s.containerType;
      var (err, u) := ReadFollowing(s.(containerType := ctx));
      if err == NoError {
        MemberReaderStays(u, level, outer);
      }
    }
  }
}
