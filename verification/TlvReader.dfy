/**
  The pull parser over buffers that arrive one at a time. Every operation's outcome is a
  function of the contiguous bytes alone, so no split into buffers can be observed.
 */
module TlvReaders {
  import opened Bytes
  import opened TlvFormat
  import opened ReaderSpec

  function Flatten(buffers: seq<seq<Byte>>): seq<Byte> {
    if buffers == [] then [] else buffers[0] + Flatten(buffers[1..])
  }

  /** At most the first `n` bytes. */
  function Take(bs: seq<Byte>, n: nat): seq<Byte> {
    if |bs| <= n then bs else bs[..n]
  }

  /**
    `input` from `pos` on is what the current buffer still holds followed by the pending
    buffers, cut off at `maxLen`.
   */
  ghost predicate Feeds(buffer: seq<Byte>, readPoint: nat, bufEnd: nat, pending: seq<seq<Byte>>,
                        input: seq<Byte>, pos: nat, maxLen: nat)
  {
    && readPoint <= bufEnd <= |buffer|
    && pos <= |input| <= maxLen
    && bufEnd - readPoint <= maxLen - pos
    && (forall b :: b in pending ==> |b| > 0)
    && input[pos..] == Take(buffer[readPoint..bufEnd] + Flatten(pending), maxLen - pos)
  }

  lemma FeedsAhead(buffer: seq<Byte>, readPoint: nat, bufEnd: nat, pending: seq<seq<Byte>>,
                   input: seq<Byte>, pos: nat, maxLen: nat)
    requires Feeds(buffer, readPoint, bufEnd, pending, input, pos, maxLen)
    ensures bufEnd - readPoint <= |input| - pos
    ensures input[pos..pos + bufEnd - readPoint] == buffer[readPoint..bufEnd]
    ensures pending == [] ==> |input| - pos == bufEnd - readPoint
    ensures readPoint == bufEnd && (pos == maxLen || pending == []) ==> pos == |input|
    ensures readPoint < bufEnd ==> input[pos] == buffer[readPoint]
  {
    var n := bufEnd - readPoint;
    assert (buffer[readPoint..bufEnd] + Flatten(pending))[..n] == buffer[readPoint..bufEnd];
    assert input[pos..][..n] == input[pos..pos + n];
    assert n > 0 ==> input[pos..pos + n][0] == buffer[readPoint..bufEnd][0];
  }

  lemma FeedsAfterLoad(buffer: seq<Byte>, readPoint: nat, bufEnd: nat, pending: seq<seq<Byte>>,
                       input: seq<Byte>, pos: nat, maxLen: nat)
    requires Feeds(buffer, readPoint, bufEnd, pending, input, pos, maxLen)
    requires readPoint == bufEnd && pos < maxLen && pending != []
    ensures var next := pending[0];
            var end := if maxLen - pos < |next| then maxLen - pos else |next|;
            0 < end && Feeds(next, 0, end, pending[1..], input, pos, maxLen)
  {
    var next, rest := pending[0], Flatten(pending[1..]);
    assert next in pending;
    assert buffer[readPoint..bufEnd] + Flatten(pending) == next + rest;
    if maxLen - pos < |next| {
      assert Take(next + rest, maxLen - pos) == next[..maxLen - pos] == Take(next[..maxLen - pos] + rest, maxLen - pos);
    } else {
      assert next[0..|next|] == next;
    }
  }

  lemma FeedsAfterAdvance(buffer: seq<Byte>, readPoint: nat, bufEnd: nat, pending: seq<seq<Byte>>,
                          input: seq<Byte>, pos: nat, maxLen: nat, n: nat)
    requires Feeds(buffer, readPoint, bufEnd, pending, input, pos, maxLen) && n <= bufEnd - readPoint
    ensures Feeds(buffer, readPoint + n, bufEnd, pending, input, pos + n, maxLen)
    ensures input[pos..pos + n] == buffer[readPoint..readPoint + n]
  {
    FeedsAhead(buffer, readPoint, bufEnd, pending, input, pos, maxLen);
    assert input[pos..pos + n] == input[pos..pos + bufEnd - readPoint][..n];
    assert buffer[readPoint..bufEnd][..n] == buffer[readPoint..readPoint + n];
    var avail := buffer[readPoint..bufEnd] + Flatten(pending);
    assert avail[n..] == buffer[readPoint + n..bufEnd] + Flatten(pending);
    assert input[pos + n..] == input[pos..][n..];
    assert Take(avail, maxLen - pos)[n..] == Take(avail[n..], maxLen - pos - n);
  }

  /** Equal slices, byte by byte. */
  lemma BytesAgree(a: seq<Byte>, i: nat, b: seq<Byte>, j: nat, n: nat)
    requires i + n <= |a| && j + n <= |b| && a[i..i + n] == b[j..j + n]
    ensures forall k :: i <= k < i + n ==> a[k] == b[j + k - i]
  {
    forall k | i <= k < i + n
      ensures a[k] == b[j + k - i]
    {
      assert a[i..i + n][k - i] == b[j..j + n][k - i];
    }
  }

  /** One round of the skipping loop. */
  lemma LoopRound(s: Reader, nestLevel: nat, outer: int)
    requires s.Valid()
    ensures s.ElementType() == END_OF_CONTAINER && nestLevel == 0 ==> SkipLoop(s, nestLevel, outer) == (NoError, s)
    ensures s.ElementType() != END_OF_CONTAINER || nestLevel > 0 ==>
            var t := s.ElementType();
            var level := if t == END_OF_CONTAINER then nestLevel - 1
                         else if IsContainerType(t) then nestLevel + 1 else nestLevel;
            var ctx := if t == END_OF_CONTAINER then (if level == 0 then outer else UNKNOWN_CONTAINER)
                       else if IsContainerType(t) then t else s.containerType;
            var (err, u) := ReadFollowing(s.(containerType := ctx));
            SkipLoop(s, nestLevel, outer) == if err != NoError then (err, u) else SkipLoop(u, level, outer)
  {
    hide ReadFollowing;
  }

  class TlvReader {
    // What GetNextBuffer still has to deliver; empty if it is NULL.
    var pending: seq<seq<Byte>>
    // mReadPoint and mBufEnd, as offsets into the current buffer.
    var buffer: seq<Byte>
    var readPoint: nat
    var bufEnd: nat
    var lenRead: nat
    var maxLen: nat
    var containerType: int
    var controlByte: nat
    var elemTag: nat
    var elemLenOrVal: nat
    var containerOpen: bool
    var implicitProfileId: nat

    /** All bytes the reader may ever read, in one piece. */
    ghost var input: seq<Byte>
    /** Whether the reader was made for a single buffer. */
    ghost var oneBuffer: bool

    ghost predicate Valid()
      reads this
    {
      && readPoint <= bufEnd <= |buffer|
      && lenRead <= |input| <= maxLen < 0x1_0000_0000
      && Feeds(buffer, readPoint, bufEnd, pending, input, lenRead, maxLen)
      && (controlByte < 0x100 || controlByte == CONTROL_NOT_SPECIFIED)
      && (oneBuffer ==> pending == [] && buffer == input && readPoint == lenRead && bufEnd == |input|)
    }

    ghost function State(): (s: Reader)
      reads this
    {
      Reader(input, maxLen, implicitProfileId, lenRead, containerType, controlByte, elemTag,
             elemLenOrVal, containerOpen)
    }

    /** Init over one buffer. */
    constructor (data: seq<Byte>)
      requires |data| < 0x1_0000_0000
      ensures Valid() && State() == Init(data) && oneBuffer
    {
      pending, buffer, readPoint, bufEnd := [], data, 0, |data|;
      lenRead, maxLen := 0, |data|;
      elemTag, controlByte, elemLenOrVal := ANONYMOUS_TAG, CONTROL_NOT_SPECIFIED, 0;
      containerType, containerOpen := NOT_SPECIFIED, false;
      implicitProfileId := PROFILE_NOT_SPECIFIED;
      input, oneBuffer := data, true;
    }

    /** A reader whose further buffers come from GetNextBuffer, and whose mMaxLen is their total. */
    constructor FromBuffers(first: seq<Byte>, rest: seq<seq<Byte>>)
      requires |first + Flatten(rest)| < 0x1_0000_0000
      requires forall b :: b in rest ==> |b| > 0
      ensures Valid() && State() == Init(first + Flatten(rest))
    {
      pending, buffer, readPoint, bufEnd := rest, first, 0, |first|;
      lenRead, maxLen := 0, |first + Flatten(rest)|;
      elemTag, controlByte, elemLenOrVal := ANONYMOUS_TAG, CONTROL_NOT_SPECIFIED, 0;
      containerType, containerOpen := NOT_SPECIFIED, false;
      implicitProfileId := PROFILE_NOT_SPECIFIED;
      input, oneBuffer := first + Flatten(rest), false;
    }

    /** Init from another reader. */
    constructor Copy(other: TlvReader)
      requires other.Valid()
      ensures Valid() && State() == other.State() && oneBuffer == other.oneBuffer
    {
      pending, buffer, readPoint, bufEnd := other.pending, other.buffer, other.readPoint, other.bufEnd;
      lenRead, maxLen := other.lenRead, other.maxLen;
      elemTag, controlByte, elemLenOrVal := other.elemTag, other.controlByte, other.elemLenOrVal;
      containerType, containerOpen := other.containerType, other.containerOpen;
      implicitProfileId := other.implicitProfileId;
      input, oneBuffer := other.input, other.oneBuffer;
    }

    function ElementType(): int
      reads this
    {
      if controlByte == CONTROL_NOT_SPECIFIED then NOT_SPECIFIED else controlByte % 32
    }

    method ClearElementState()
      requires Valid()
      modifies this`elemTag, this`controlByte, this`elemLenOrVal
      ensures Valid() && State() == old(State()).Clear()
    {
      elemTag, controlByte, elemLenOrVal := ANONYMOUS_TAG, CONTROL_NOT_SPECIFIED, 0;
    }

    // ---- Input ----

    /** Makes sure there is a byte to read, fetching the next buffer if need be. */
    method EnsureData(noDataErr: Error) returns (err: Error)
      requires Valid() && noDataErr != NoError
      modifies this
      ensures Valid() && State() == old(State()) && input == old(input) && oneBuffer == old(oneBuffer)
      ensures lenRead <= |input| && err == if lenRead < |input| then NoError else noDataErr
      ensures err == NoError ==> readPoint < bufEnd <= |buffer| && input[lenRead] == buffer[readPoint]
    {
      hide Feeds;
      FeedsAhead(buffer, readPoint, bufEnd, pending, input, lenRead, maxLen);
      if readPoint == bufEnd {
        if lenRead == maxLen || pending == [] {
          return noDataErr;
        }
        // GetNextBuffer; never read past the maximum length, even if the new buffer goes on.
        FeedsAfterLoad(buffer, readPoint, bufEnd, pending, input, lenRead, maxLen);
        buffer, pending := pending[0], pending[1..];
        readPoint, bufEnd := 0, if maxLen - lenRead < |buffer| then maxLen - lenRead else |buffer|;
        FeedsAhead(buffer, readPoint, bufEnd, pending, input, lenRead, maxLen);
      }
      return NoError;
    }

    /** Moves the read point over `n` bytes of the current buffer. */
    method Advance(n: nat)
      requires Valid() && n <= bufEnd - readPoint
      modifies this`readPoint, this`lenRead
      ensures Valid() && State() == old(State()).(pos := old(lenRead) + n)
      ensures lenRead == old(lenRead) + n <= |input| && readPoint == old(readPoint) + n <= |buffer|
      ensures buffer[old(readPoint)..readPoint] == input[old(lenRead)..lenRead]
    {
      hide Feeds;
      FeedsAfterAdvance(buffer, readPoint, bufEnd, pending, input, lenRead, maxLen, n);
      readPoint := readPoint + n;
      lenRead := lenRead + n;
    }

    /** Reads `len` bytes into `dest`, or over them if `dest` is null. */
    method ReadData(dest: array?<Byte>, len: nat) returns (err: Error)
      requires Valid() && (dest != null ==> len <= dest.Length)
      modifies this, dest
      ensures Valid() && (err, State()) == ReaderSpec.ReadData(old(State()), len)
      ensures input == old(input) && oneBuffer == old(oneBuffer)
      ensures err == NoError && dest != null ==> forall i :: 0 <= i < len ==> dest[i] == input[old(lenRead) + i]
    {
      hide Feeds;
      var done: nat := 0;
      while done < len
        invariant Valid() && done <= len && lenRead <= |input|
        invariant State() == old(State()).(pos := old(lenRead) + done)
        invariant input == old(input) && oneBuffer == old(oneBuffer) && lenRead == old(lenRead) + done
        invariant dest != null ==> forall i :: 0 <= i < done ==> dest[i] == input[old(lenRead) + i]
      {
        var readLen;
        err, readLen := ReadSome(dest, done, len - done);
        if err != NoError {
          return;
        }
        done := done + readLen;
      }
      return NoError;
    }

    /** One round of ReadData: as much of `left` bytes as one buffer holds. */
    method ReadSome(dest: array?<Byte>, offset: nat, left: nat) returns (err: Error, readLen: nat)
      requires Valid() && left > 0 && (dest != null ==> offset + left <= dest.Length)
      modifies this, dest
      ensures Valid() && input == old(input) && oneBuffer == old(oneBuffer)
      ensures err == if old(lenRead) < |input| then NoError else TlvUnderrun
      ensures State() == old(State()).(pos := if err == NoError then old(lenRead) + readLen else old(lenRead))
      ensures err == NoError ==> 0 < readLen <= left && lenRead <= |input|
      ensures dest != null ==> forall i :: 0 <= i < offset ==> dest[i] == old(dest[i])
      ensures err == NoError && dest != null ==>
                forall i :: offset <= i < offset + readLen ==> dest[i] == input[old(lenRead) + i - offset]
    {
      hide Feeds;
      readLen := 0;
      err := EnsureData(TlvUnderrun);
      if err != NoError {
        return;
      }
      readLen := if left > bufEnd - readPoint then bufEnd - readPoint else left;
      TakeOut(dest, offset, readLen);
    }

    /** Copies `n` bytes of the current buffer, if there is somewhere to copy them, and moves over them. */
    method TakeOut(dest: array?<Byte>, offset: nat, n: nat)
      requires Valid() && n <= bufEnd - readPoint && (dest != null ==> offset + n <= dest.Length)
      modifies this`readPoint, this`lenRead, dest
      ensures Valid() && State() == old(State()).(pos := old(lenRead) + n) && lenRead == old(lenRead) + n <= |input|
      ensures dest != null ==> forall i :: 0 <= i < offset ==> dest[i] == old(dest[i])
      ensures dest != null ==>
                forall i :: offset <= i < offset + n ==> dest[i] == input[old(lenRead) + i - offset]
    {
      hide Feeds;
      if dest != null {
        CopyOut(dest, offset, n);
      }
      Advance(n);
      BytesAgree(buffer, old(readPoint), input, old(lenRead), n);
    }

    /** memcpy from the read point. */
    method CopyOut(dest: array<Byte>, offset: nat, n: nat)
      requires readPoint + n <= |buffer| && offset + n <= dest.Length
      modifies dest
      ensures forall i :: 0 <= i < offset ==> dest[i] == old(dest[i])
      ensures forall i :: offset <= i < offset + n ==> dest[i] == buffer[readPoint + i - offset]
    {
      forall i | 0 <= i < n {
        dest[offset + i] := buffer[readPoint + i];
      }
    }

    // ---- Elements ----

    /** The tag at the beginning of `bytes`, and how many of them were read for it. */
    method ReadTag(tagControl: nat, bytes: seq<Byte>) returns (tag: nat, read: nat)
      requires tagControl < 8 && |bytes| >= TagBytes(tagControl)
      ensures tag == DecodeTag(tagControl, bytes[..TagBytes(tagControl)]).Number(implicitProfileId)
      ensures read == if TagIsUnread(tagControl, implicitProfileId) then 0 else TagBytes(tagControl)
    {
      read := TagBytes(tagControl);
      match tagControl
      case 1 =>
        tag := SPECIAL_TAG_MARKER + ReadLE(bytes[..1]);
      case 2 =>
        tag := ReadLE(bytes[..2]);
      case 3 =>
        tag := ReadLE(bytes[..4]);
      case 4 =>
        if implicitProfileId == PROFILE_NOT_SPECIFIED {
          return UNKNOWN_IMPLICIT_TAG, 0;
        }
        tag := implicitProfileId * 0x1_0000_0000 + ReadLE(bytes[..2]);
      case 5 =>
        if implicitProfileId == PROFILE_NOT_SPECIFIED {
          return UNKNOWN_IMPLICIT_TAG, 0;
        }
        tag := implicitProfileId * 0x1_0000_0000 + ReadLE(bytes[..4]);
      case 6 =>
        assert bytes[..6][..2] == bytes[..2] && bytes[..6][2..4] == bytes[2..4] && bytes[..6][4..] == bytes[4..6];
        var vendor, profile := ReadLE(bytes[..2]), ReadLE(bytes[2..4]);
        tag := vendor * 0x1_0000_0000_0000 + profile * 0x1_0000_0000 + ReadLE(bytes[4..6]);
      case 7 =>
        assert bytes[..8][..2] == bytes[..2] && bytes[..8][2..4] == bytes[2..4] && bytes[..8][4..] == bytes[4..8];
        var vendor, profile := ReadLE(bytes[..2]), ReadLE(bytes[2..4]);
        tag := vendor * 0x1_0000_0000_0000 + profile * 0x1_0000_0000 + ReadLE(bytes[4..8]);
      case _ =>
        tag := ANONYMOUS_TAG;
    }

    method VerifyElement() returns (err: Error)
      requires Valid()
      ensures err == ReaderSpec.VerifyElement(State())
    {
      var t := ElementType();
      if t == END_OF_CONTAINER {
        if containerType == NOT_SPECIFIED {
          return InvalidTlvElement;
        }
        if elemTag != ANONYMOUS_TAG {
          return InvalidTlvTag;
        }
      } else {
        if elemTag == UNKNOWN_IMPLICIT_TAG {
          return UnknownImplicitTlvTag;
        }
        if containerType == NOT_SPECIFIED {
          if IsContextTag(elemTag) {
            return InvalidTlvTag;
          }
        } else if containerType == STRUCTURE || containerType == PATH {
          if elemTag == ANONYMOUS_TAG {
            return InvalidTlvTag;
          }
        } else if containerType == ARRAY {
          if elemTag != ANONYMOUS_TAG {
            return InvalidTlvTag;
          }
        } else if containerType != UNKNOWN_CONTAINER {
          return IncorrectState;
        }
      }
      if HasLength(t) {
        var overallLenRemaining := maxLen - lenRead;
        if overallLenRemaining < DataLength(elemLenOrVal) {
          return TlvUnderrun;
        }
      }
      return NoError;
    }

    /** The element head's bytes, from the buffer or, across a boundary, from a staging buffer. */
    method TakeHead(n: nat) returns (err: Error, head: seq<Byte>)
      requires Valid() && n <= 17
      modifies this
      ensures Valid() && input == old(input) && oneBuffer == old(oneBuffer)
      ensures err == if n <= |input| - old(lenRead) then NoError else TlvUnderrun
      ensures State() == old(State()).(pos := if err == NoError then old(lenRead) + n else |input|)
      ensures err == NoError ==> head == input[old(lenRead)..old(lenRead) + n]
    {
      if n > bufEnd - readPoint {
        var stagingBuf := new Byte[17];
        err := ReadData(stagingBuf, n);
        head := stagingBuf[..n];
      } else {
        err, head := NoError, buffer[readPoint..readPoint + n];
        Advance(n);
      }
    }

    /** The tag and the length or value field of a whole head. */
    method ParseHead(head: seq<Byte>)
      requires Valid() && |head| > 0 && |head| == HeadBytes(head[0])
      modifies this`elemTag, this`elemLenOrVal
      ensures Valid()
      ensures State() == old(State()).(tag := TagOfHead(head).Number(implicitProfileId),
                                       lenOrVal := FieldRead(head, implicitProfileId))
    {
      hide Feeds, DecodeTag;
      var tagBytes := TagBytes(head[0] / 32);
      var read;
      elemTag, read := ReadTag(head[0] / 32, head[1..]);
      assert head[1..][..tagBytes] == head[1..1 + tagBytes];
      var fieldBytes := FieldBytes(head[0] % 32);
      assert read == tagBytes ==> head[1 + read..1 + read + fieldBytes] == head[1 + tagBytes..];
      elemLenOrVal := ReadLE(head[1 + read..1 + read + fieldBytes]);
    }

    method ReadElement() returns (err: Error)
      requires Valid()
      modifies this
      ensures Valid() && (err, State()) == ReaderSpec.ReadElement(old(State()))
      ensures input == old(input) && oneBuffer == old(oneBuffer)
    {
      hide ReaderSpec.VerifyElement, Feeds, TagOfHead, FieldRead, HeadBytes;
      err := EnsureData(EndOfTlv);
      if err != NoError {
        return;
      }
      controlByte := buffer[readPoint];
      if ElementType() > END_OF_CONTAINER {
        return InvalidTlvElement;
      }
      var head;
      err, head := TakeHead(HeadBytes(controlByte));
      if err != NoError {
        return;
      }
      ParseHead(head);
      err := VerifyElement();
    }

    // ---- Moving on ----

    method SkipData() returns (err: Error)
      requires Valid()
      modifies this
      ensures Valid() && (err, State()) == ReaderSpec.SkipData(old(State()))
      ensures input == old(input) && oneBuffer == old(oneBuffer)
    {
      hide Valid, ReaderSpec.ReadData;
      err := NoError;
      if HasLength(ElementType()) {
        err := ReadData(null, DataLength(elemLenOrVal));
      }
    }

    method SkipToEndOfContainer() returns (err: Error)
      requires Valid()
      modifies this
      ensures Valid() && (err, State()) == ReaderSpec.SkipToEndOfContainer(old(State()))
      ensures input == old(input) && oneBuffer == old(oneBuffer)
    {
      hide Feeds, ReaderSpec.ReadFollowing, SkipLoop;
      var outerContainerType := containerType;
      var nestLevel: nat := 0;
      containerOpen := false;
      ghost var start := State();
      while true
        invariant Valid() && input == old(input) && oneBuffer == old(oneBuffer)
        invariant SkipLoop(State(), nestLevel, outerContainerType) == SkipLoop(start, 0, outerContainerType)
        decreases |input| - lenRead
      {
        LoopRound(State(), nestLevel, outerContainerType);
        var elemType := ElementType();
        if elemType == END_OF_CONTAINER {
          if nestLevel == 0 {
            return NoError;
          }
          nestLevel := nestLevel - 1;
          containerType := if nestLevel == 0 then outerContainerType else UNKNOWN_CONTAINER;
        } else if IsContainerType(elemType) {
          nestLevel := nestLevel + 1;
          containerType := elemType;
        }
        err := ReadFollowing();
        if err != NoError {
          return;
        }
      }
    }

    /** The tail of one round: over the current element's data, and on to the next head. */
    method ReadFollowing() returns (err: Error)
      requires Valid()
      modifies this
      ensures Valid() && (err, State()) == ReaderSpec.ReadFollowing(old(State()))
      ensures input == old(input) && oneBuffer == old(oneBuffer)
    {
      hide Valid, ReaderSpec.SkipData, ReaderSpec.ReadElement;
      err := SkipData();
      if err != NoError {
        return;
      }
      err := ReadElement();
    }

    method EnterContainer() returns (err: Error, outerContainerType: int)
      requires Valid()
      modifies this
      ensures Valid() && input == old(input) && oneBuffer == old(oneBuffer)
      ensures (err, State(), outerContainerType) == ReaderSpec.EnterContainer(old(State()))
    {
      hide Feeds;
      var elemType := ElementType();
      if !IsContainerType(elemType) {
        return IncorrectState, 0;
      }
      outerContainerType := containerType;
      containerType := elemType;
      ClearElementState();
      containerOpen := false;
      err := NoError;
    }

    method ExitContainer(outerContainerType: int) returns (err: Error)
      requires Valid()
      modifies this
      ensures Valid() && (err, State()) == ReaderSpec.ExitContainer(old(State()), outerContainerType)
      ensures input == old(input) && oneBuffer == old(oneBuffer)
    {
      hide Feeds, ReaderSpec.SkipToEndOfContainer;
      err := SkipToEndOfContainer();
      if err != NoError {
        return;
      }
      containerType := outerContainerType;
      ClearElementState();
    }

    method Skip() returns (err: Error)
      requires Valid()
      modifies this
      ensures Valid() && (err, State()) == ReaderSpec.Skip(old(State()))
      ensures input == old(input) && oneBuffer == old(oneBuffer)
    {
      hide Valid, ReaderSpec.SkipData, ReaderSpec.ExitContainer;
      var elemType := ElementType();
      if elemType == END_OF_CONTAINER {
        return EndOfTlv;
      }
      if IsContainerType(elemType) {
        var outerContainerType;
        err, outerContainerType := EnterContainer();
        if err != NoError {
          return;
        }
        err := ExitContainer(outerContainerType);
      } else {
        err := SkipData();
        if err != NoError {
          return;
        }
        ClearElementState();
      }
    }

    method Next() returns (err: Error)
      requires Valid()
      modifies this
      ensures Valid() && (err, State()) == ReaderSpec.Next(old(State()))
      ensures input == old(input) && oneBuffer == old(oneBuffer)
    {
      hide Valid, ReaderSpec.Skip, ReaderSpec.ReadElement;
      err := Skip();
      if err != NoError {
        return;
      }
      err := ReadElement();
      if err != NoError {
        return;
      }
      if ElementType() == END_OF_CONTAINER {
        return EndOfTlv;
      }
    }

    /** Next, asserting the type and the tag of the new element. */
    method NextExpecting(expectedType: int, expectedTag: nat) returns (err: Error)
      requires Valid()
      modifies this
      ensures Valid() && (err, State()) == ReaderSpec.NextExpecting(old(State()), expectedType, expectedTag)
      ensures input == old(input) && oneBuffer == old(oneBuffer)
    {
      hide Valid, ReaderSpec.Next;
      err := Next();
      if err != NoError {
        return;
      }
      if GetType() != expectedType {
        return WrongTlvType;
      }
      if elemTag != expectedTag {
        return UnexpectedTlvElement;
      }
    }

    // ---- Getters ----

    function GetType(): (t: int)
      reads this
      ensures t == ReaderSpec.GetType(State())
    {
      var elemType := ElementType();
      if elemType == END_OF_CONTAINER then NOT_SPECIFIED
      else if elemType == 0x0A || elemType == 0x0B then 0x0A
      else if elemType == NOT_SPECIFIED || elemType >= 0x14 then elemType
      else elemType - elemType % 4
    }

    function GetLength(): (n: nat)
      reads this
      ensures n == ReaderSpec.GetLength(State())
    {
      if HasLength(ElementType()) then DataLength(elemLenOrVal) else 0
    }

    method GetU64() returns (err: Error, v: int)
      requires Valid()
      ensures (err, v) == ReaderSpec.GetU64(State())
    {
      err, v := NoError, 0;
      match ElementType()
      case 0x00 => v := SignExtend(elemLenOrVal, 0x100);
      case 0x01 => v := SignExtend(elemLenOrVal, 0x1_0000);
      case 0x02 => v := SignExtend(elemLenOrVal, 0x1_0000_0000);
      case 0x03 => v := elemLenOrVal;
      case 0x04 => v := elemLenOrVal;
      case 0x05 => v := elemLenOrVal;
      case 0x06 => v := elemLenOrVal;
      case 0x07 => v := elemLenOrVal;
      case _ => err := WrongTlvType;
    }

    method GetI64() returns (err: Error, v: int)
      requires Valid()
      ensures (err, v) == ReaderSpec.GetI64(State())
    {
      var v64;
      err, v64 := GetU64();
      v := ToInt64(v64);
    }

    method GetBool() returns (err: Error, v: bool)
      requires Valid()
      ensures (err, v) == ReaderSpec.GetBool(State())
    {
      var elemType := ElementType();
      if elemType == 0x08 {
        return NoError, false;
      } else if elemType == 0x09 {
        return NoError, true;
      } else {
        return WrongTlvType, false;
      }
    }

    /** A copy of the current string; malloc is taken to fail for lengths of 2^32 and more. */
    method DupString() returns (err: Error, data: seq<Byte>)
      requires Valid()
      modifies this
      ensures Valid() && input == old(input) && oneBuffer == old(oneBuffer)
      ensures (err, data, State()) == ReaderSpec.DupString(old(State()))
    {
      hide Feeds;
      data := [];
      if !HasLength(ElementType()) {
        return WrongTlvType, data;
      }
      if elemLenOrVal >= 0x1_0000_0000 {
        return NoMemory, data;
      }
      var buf := new Byte[elemLenOrVal];
      err := ReadData(buf, elemLenOrVal);
      if err != NoError {
        return;
      }
      data := buf[..];
      assert data == input[old(lenRead)..lenRead];
      elemLenOrVal := 0;
    }

    method GetBytes(dest: array<Byte>, bufSize: nat) returns (err: Error)
      requires Valid() && bufSize <= dest.Length
      modifies this, dest
      ensures Valid() && input == old(input) && oneBuffer == old(oneBuffer)
      ensures var (err', data, s) := ReaderSpec.GetBytes(old(State()), bufSize);
              err == err' && State() == s && (err == NoError ==> dest[..|data|] == data)
    {
      hide Feeds;
      if !HasLength(ElementType()) {
        return WrongTlvType;
      }
      if elemLenOrVal > bufSize {
        return BufferTooSmall;
      }
      err := ReadData(dest, DataLength(elemLenOrVal));
      if err != NoError {
        return;
      }
      elemLenOrVal := 0;
    }

    /** The data itself, only where one buffer holds all of it. */
    method GetDataPtr() returns (err: Error, data: seq<Byte>)
      requires Valid()
      modifies this
      ensures Valid() && State() == old(State()) && input == old(input) && oneBuffer == old(oneBuffer)
      ensures err == NoError ==> (err, data) == ReaderSpec.GetDataPtr(State())
      ensures oneBuffer ==> err == ReaderSpec.GetDataPtr(State()).0
      ensures err == if !HasLength(ElementType()) then WrongTlvType
                     else if lenRead == |input| || bufEnd - readPoint < DataLength(elemLenOrVal) then TlvUnderrun
                     else NoError
    {
      hide Feeds;
      data := [];
      if !HasLength(ElementType()) {
        return WrongTlvType, data;
      }
      err := EnsureData(TlvUnderrun);
      if err != NoError {
        return;
      }
      var remainingLen := bufEnd - readPoint;
      FeedsAhead(buffer, readPoint, bufEnd, pending, input, lenRead, maxLen);
      if remainingLen < DataLength(elemLenOrVal) {
        return TlvUnderrun, data;
      }
      FeedsAfterAdvance(buffer, readPoint, bufEnd, pending, input, lenRead, maxLen, DataLength(elemLenOrVal));
      data := buffer[readPoint..readPoint + DataLength(elemLenOrVal)];
    }

    // ---- Readers for the members of a container ----

    method OpenContainer(containerReader: TlvReader) returns (err: Error)
      requires Valid() && containerReader.Valid() && containerReader != this
      modifies this, containerReader
      ensures Valid() && containerReader.Valid()
      ensures var (err', parent, child) := ReaderSpec.OpenContainer(old(State()));
              && err == err' && State() == parent
              && containerReader.State() == if err == NoError then child else old(containerReader.State())
    {
      hide Feeds;
      var elemType := ElementType();
      if !IsContainerType(elemType) {
        return IncorrectState;
      }
      containerReader.StartInside(this, elemType);
      containerOpen := true;
      err := NoError;
    }

    /** Starts reading members where `other` has read the head of a container. */
    method StartInside(other: TlvReader, elemType: int)
      requires Valid() && other.Valid() && other != this
      modifies this
      ensures Valid() && State() == Reader(other.input, other.maxLen, other.implicitProfileId, other.lenRead, elemType,
                                           CONTROL_NOT_SPECIFIED, ANONYMOUS_TAG, 0, false)
    {
      hide Feeds;
      TakeInput(other);
      ClearElementState();
      containerType := elemType;
      containerOpen := false;
      implicitProfileId := other.implicitProfileId;
    }

    /** Continues on the input where `other` stands. */
    method TakeInput(other: TlvReader)
      requires Valid() && other.Valid() && other != this
      modifies this`pending, this`buffer, this`readPoint, this`bufEnd, this`lenRead,
               this`maxLen, this`input, this`oneBuffer
      ensures Valid() && input == other.input && maxLen == other.maxLen && lenRead == other.lenRead
    {
      hide Feeds;
      pending, buffer, readPoint, bufEnd := other.pending, other.buffer, other.readPoint, other.bufEnd;
      lenRead, maxLen, input, oneBuffer := other.lenRead, other.maxLen, other.input, other.oneBuffer;
    }

    method CloseContainer(containerReader: TlvReader) returns (err: Error)
      requires Valid() && containerReader.Valid() && containerReader != this
      modifies this, containerReader
      ensures Valid() && containerReader.Valid()
      ensures (err, State(), containerReader.State()) ==
              ReaderSpec.CloseContainer(old(State()), old(containerReader.State()))
    {
      hide Feeds, ReaderSpec.SkipToEndOfContainer;
      if !containerOpen || containerReader.containerType != ElementType() {
        return IncorrectState;
      }
      err := containerReader.SkipToEndOfContainer();
      if err != NoError {
        return;
      }
      TakeInput(containerReader);
      ClearElementState();
    }
  }
}
