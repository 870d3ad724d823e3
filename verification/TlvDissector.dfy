/** The dissector's cursor: a reader over one buffer that also tracks ranges and containers. */
module TlvDissectors {
  import opened Bytes
  import opened TlvFormat
  import opened ReaderSpec
  import opened Text
  import opened TlvReaders
  import D = DissectorSpec

  class TlvDissector {
    /** The reader it extends. */
    const reader: TlvReader
    var sourceBufBaseOffset: nat
    var elemStart: nat
    var elemLen: int
    var lastItem: int
    var containerStack: array?<D.Frame>
    var containerStackSize: nat
    var containerDepth: nat
    /** The lines put into the protocol tree so far. */
    var items: seq<D.Item>

    ghost predicate Valid()
      reads this, reader
    {
      && reader.Valid() && reader.oneBuffer
      && if containerStack == null then containerStackSize == 0 && containerDepth == 0
         else containerStackSize == containerStack.Length && containerDepth <= containerStackSize
    }

    ghost function Stack(): seq<D.Frame>
      reads this, containerStack
    {
      if containerStack == null || containerDepth > containerStack.Length then [] else containerStack[..containerDepth]
    }

    ghost function State(): D.Dissector
      reads this, reader, containerStack
    {
      D.Dissector(reader.State(), sourceBufBaseOffset, elemStart, elemLen, lastItem, Stack(), items)
    }

    constructor (data: seq<Byte>, baseOffset: nat)
      requires |data| < 0x1_0000_0000
      ensures Valid() && fresh(reader) && containerStack == null
      ensures State() == D.Dissector(Init(data), baseOffset, 0, 0, D.NO_ITEM, [], [])
    {
      var r := new TlvReader(data);
      reader := r;
      sourceBufBaseOffset, elemStart, elemLen, lastItem := baseOffset, 0, 0, D.NO_ITEM;
      containerStack, containerStackSize, containerDepth := null, 0, 0;
      items := [];
    }

    // ---- Moving ----

    method MarkElemStart() returns (err: Error)
      requires Valid()
      modifies this`elemStart
      ensures Valid() && (err, State()) == D.MarkElemStart(old(State()))
    {
      if reader.GetType() != NOT_SPECIFIED {
        return IncorrectState;
      }
      elemStart := reader.lenRead;
      return NoError;
    }

    method MarkElemLength() returns (err: Error)
      requires Valid()
      modifies this`elemLen
      ensures Valid() && (err, State()) == D.MarkElemLength(old(State()))
    {
      hide Feeds, ReaderSpec.Skip;
      var readerCopy := new TlvReader.Copy(reader);
      err := readerCopy.Skip();
      if err != NoError {
        return;
      }
      elemLen := readerCopy.lenRead - elemStart;
    }

    method Next() returns (err: Error)
      requires Valid()
      modifies this`lastItem, this`elemStart, this`elemLen, reader
      ensures Valid() && (err, State()) == D.Next(old(State()))
    {
      hide Feeds, ReaderSpec.Skip, ReaderSpec.Next;
      lastItem := D.NO_ITEM;
      err := reader.Skip();
      if err != NoError {
        return;
      }
      err := MarkElemStart();
      if err != NoError {
        return;
      }
      err := reader.Next();
      if err != NoError {
        return;
      }
      err := MarkElemLength();
    }

    method EnterContainer() returns (err: Error)
      requires Valid()
      modifies this, reader, containerStack
      ensures Valid() && (err, State()) == D.EnterContainer(old(State()))
      ensures containerStack == old(containerStack) || fresh(containerStack)
    {
      hide Feeds;
      var containerType;
      err, containerType := reader.EnterContainer();
      if err != NoError {
        return;
      }
      PushContainer(containerType);
    }

    method ExitContainer() returns (err: Error)
      requires Valid()
      modifies this, reader
      ensures Valid() && (err, State()) == D.ExitContainer(old(State()))
      ensures containerStack == old(containerStack)
    {
      hide Feeds, ReaderSpec.ExitContainer;
      var containerType := PopContainer();
      err := reader.ExitContainer(containerType);
    }

    /** Doubles the stack array when it is full. */
    method PushContainer(containerType: int)
      requires Valid()
      modifies this`containerStack, this`containerStackSize, this`containerDepth, containerStack
      ensures Valid() && State() == D.PushContainer(old(State()), containerType)
      ensures containerStack == old(containerStack) || fresh(containerStack)
    {
      hide Feeds;
      if containerStack == null || containerStackSize == 0 || containerStackSize == containerDepth {
        containerStackSize := if containerStackSize == 0 then 16 else containerStackSize * 2;
        Realloc();
      }
      containerStack[containerDepth] := D.Frame(containerType, lastItem, elemStart, elemLen);
      containerDepth := containerDepth + 1;
      assert containerStack[..containerDepth] == containerStack[..containerDepth - 1] +
             [containerStack[containerDepth - 1]];
    }

    /** realloc to containerStackSize. */
    method Realloc()
      requires containerDepth < containerStackSize
      requires if containerStack == null then containerDepth == 0 else containerDepth <= containerStack.Length
      modifies this`containerStack
      ensures containerStack != null && fresh(containerStack) && containerStack.Length == containerStackSize
      ensures Stack() == old(Stack())
    {
      var grown := new D.Frame[containerStackSize];
      if containerStack != null {
        forall i | 0 <= i < containerDepth {
          grown[i] := containerStack[i];
        }
        assert grown[..containerDepth] == containerStack[..containerDepth];
      }
      containerStack := grown;
    }

    method PopContainer() returns (containerType: int)
      requires Valid()
      modifies this`containerDepth, this`lastItem, this`elemStart, this`elemLen
      ensures Valid() && (containerType, State()) == D.PopContainer(old(State()))
    {
      hide Feeds;
      if containerDepth > 0 {
        containerDepth := containerDepth - 1;
        assert containerStack[..containerDepth] == old(containerStack[..containerDepth])[..containerDepth];
        lastItem := containerStack[containerDepth].item;
        elemStart := containerStack[containerDepth].elemStart;
        elemLen := containerStack[containerDepth].elemLen;
        return containerStack[containerDepth].containerType;
      } else {
        return NOT_SPECIFIED;
      }
    }

    // ---- Adding lines ----

    method AddString(text: string, standalone: bool)
      requires Valid()
      modifies this`lastItem, this`items
      ensures Valid() && State() == D.AddString(old(State()), text, standalone)
    {
      lastItem := |items|;
      items := items + [D.Item(text, elemStart + sourceBufBaseOffset, elemLen, standalone)];
    }

    /** The indentation and the tag. */
    method AppendPrefix(strBuf: StringBuffer, tag: nat, suppressTag: bool, suppressHeader: bool, indentLevel: nat)
      requires strBuf.Valid() && strBuf.strBuf == null
      modifies strBuf
      ensures strBuf.Valid() && (strBuf.strBuf == null || fresh(strBuf.strBuf))
      ensures strBuf.text == D.Prefix(tag, suppressTag, suppressHeader, indentLevel)
      ensures strBuf.strBuf == null <==> strBuf.text == ""
    {
      hide D.TagLabel, Repeat;
      if suppressHeader {
        strBuf.AppendRepeated("    ", indentLevel);
        RepeatIsEmpty("    ", indentLevel);
      }
      if !suppressTag {
        AppendTag(strBuf, tag);
      }
    }

    static lemma RepeatIsEmpty(s: string, n: nat)
      requires s != ""
      ensures Repeat(s, n) == "" <==> n == 0
    {
    }

    static method AppendTag(strBuf: StringBuffer, tag: nat)
      requires strBuf.Valid()
      modifies strBuf, strBuf.strBuf
      ensures strBuf.Valid() && (strBuf.strBuf == old(strBuf.strBuf) || fresh(strBuf.strBuf))
      ensures strBuf.text == old(strBuf.text) + D.TagLabel(tag)
      ensures strBuf.strBuf == null <==> old(strBuf.strBuf) == null && D.TagLabel(tag) == ""
    {
      hide Decimal, Hex, NulFree;
      if IsContextTag(tag) {
        var text := Decimal(tag % 0x1_0000_0000) + " = ";
        assert text == D.TagLabel(tag);
        strBuf.AppendStringF(text);
      } else if IsProfileTag(tag) {
        var text := Hex((tag / 0x1_0000_0000) % 0x1_0000_0000, 8, 'A') + ":d = ";
        assert text == D.TagLabel(tag);
        strBuf.AppendStringF(text);
      }
    }

    /** The current element's value. */
    method AppendValue(strBuf: StringBuffer, fmt: D.Format) returns (err: Error)
      requires Valid() && strBuf.Valid()
      modifies reader, strBuf, strBuf.strBuf
      ensures Valid() && strBuf.Valid() && (strBuf.strBuf == old(strBuf.strBuf) || fresh(strBuf.strBuf))
      ensures var (err', text, r) := D.ValueText(old(reader.State()), fmt);
              err == err' && reader.State() == r && (err == NoError ==> strBuf.text == old(strBuf.text) + text)
      ensures err == NoError ==>
                (strBuf.strBuf == null <==>
                 old(strBuf.strBuf) == null && old(reader.GetType()) == 0x10 && old(reader.GetLength()) == 0)
    {
      hide Feeds, Decimal, Hex, D.FloatText, ReaderSpec.GetU64, ReaderSpec.GetI64, ReaderSpec.DupString,
           ReaderSpec.GetDataPtr;
      err := NoError;
      GettersMatchTypes(reader.State());
      match reader.GetType() {
        case 0x00 =>
          var val;
          err, val := reader.GetI64();
          if err != NoError {
            return;
          }
          strBuf.AppendStringF(Decimal(val));
        case 0x04 =>
          var val;
          err, val := reader.GetU64();
          if err != NoError {
            return;
          }
          strBuf.AppendStringF(Decimal(val));
        case 0x08 =>
          var val;
          err, val := reader.GetBool();
          if err != NoError {
            return;
          }
          strBuf.AppendStringF(if val then "true" else "false");
        case 0x0A =>
          strBuf.AppendStringF(D.FloatText(fmt.float(FieldBytes(reader.ElementType()), reader.elemLenOrVal)));
        case 0x0C =>
          var val;
          err, val := reader.DupString();
          if err != NoError {
            return;
          }
          strBuf.AppendStringF(CStr(fmt.escape(val)));
        case 0x10 =>
          err := AppendBytes(strBuf);
        case 0x14 =>
          strBuf.AppendStringF("null");
        case 0x15 =>
          strBuf.AppendStringF("{");
        case 0x16 =>
          strBuf.AppendStringF("[");
        case 0x17 =>
          strBuf.AppendStringF("<");
        case _ =>
          err := UnexpectedTlvElement;
      }
    }

    /** The bytes of a byte string, in hex. */
    method AppendBytes(strBuf: StringBuffer) returns (err: Error)
      requires Valid() && strBuf.Valid() && reader.GetType() == 0x10
      modifies reader, strBuf, strBuf.strBuf
      ensures Valid() && strBuf.Valid() && (strBuf.strBuf == old(strBuf.strBuf) || fresh(strBuf.strBuf))
      ensures reader.State() == old(reader.State())
      ensures var (err', data) := ReaderSpec.GetDataPtr(old(reader.State()));
              err == err' && (err == NoError ==> strBuf.text == old(strBuf.text) + HexDump(data))
      ensures err == NoError ==> (strBuf.strBuf == null <==> old(strBuf.strBuf) == null && old(reader.GetLength()) == 0)
    {
      hide Feeds, Hex, HexDump;
      var dataLen := reader.GetLength();
      var data;
      err, data := reader.GetDataPtr();
      if err != NoError {
        return;
      }
      AppendHex(strBuf, dataLen, data);
    }

    static method AppendHex(strBuf: StringBuffer, dataLen: nat, data: seq<Byte>)
      requires strBuf.Valid() && dataLen == |data|
      modifies strBuf, strBuf.strBuf
      ensures strBuf.Valid() && (strBuf.strBuf == old(strBuf.strBuf) || fresh(strBuf.strBuf))
      ensures strBuf.text == old(strBuf.text) + HexDump(data)
      ensures strBuf.strBuf == null <==> old(strBuf.strBuf) == null && dataLen == 0
    {
      hide Hex;
      var i := 0;
      while i < dataLen
        invariant i <= dataLen && strBuf.Valid()
        invariant strBuf.strBuf == old(strBuf.strBuf) || fresh(strBuf.strBuf)
        invariant strBuf.text == old(strBuf.text) + HexDump(data[..i])
        invariant strBuf.strBuf == null <==> old(strBuf.strBuf) == null && i == 0
      {
        strBuf.AppendStringF(" " + Hex(data[i], 2, 'a'));
        assert data[..i + 1][..i] == data[..i];
        assert strBuf.text == old(strBuf.text) + (HexDump(data[..i]) + (" " + Hex(data[i], 2, 'a')));
        i := i + 1;
      }
      assert data[..i] == data;
    }

    /** The text of the first line: indentation, tag and value, if anything was appended at all. */
    method LineText(fmt: D.Format, suppressTag: bool, suppressHeader: bool, indentLevel: nat)
      returns (err: Error, line: string)
      requires Valid()
      modifies reader
      ensures Valid()
      ensures var (err', text, r) := D.ValueText(old(reader.State()), fmt);
              var hasText := D.HasText(old(reader.State()), suppressTag, suppressHeader, indentLevel);
              && reader.State() == r
              && err == (if err' == NoError && !hasText then NullBuffer else err')
              && (err == NoError ==>
                    line == D.Prefix(old(reader.elemTag), suppressTag, suppressHeader, indentLevel) + text)
    {
      hide Feeds, D.ValueText, D.Prefix;
      line := "";
      var strBuf := new StringBuffer();
      AppendPrefix(strBuf, reader.elemTag, suppressTag, suppressHeader, indentLevel);
      err := AppendValue(strBuf, fmt);
      if err != NoError {
        return;
      }
      if strBuf.strBuf == null {
        return NullBuffer, line;
      }
      line := strBuf.CString();
    }

    /** The first line of the current element. */
    method AddLine(fmt: D.Format, suppressTag: bool, suppressHeader: bool, indentLevel: nat) returns (err: Error)
      requires Valid()
      modifies this`lastItem, this`items, reader
      ensures Valid() && (err, State()) == D.AddLine(old(State()), fmt, suppressTag, suppressHeader, indentLevel)
    {
      hide Feeds, D.ValueText, D.Prefix, D.HasText;
      var line;
      err, line := LineText(fmt, suppressTag, suppressHeader, indentLevel);
      if err == NoError {
        AddString(line, suppressHeader);
      }
    }

    /** Adds the current element, members included, to the tree. */
    method AddGenericTLVItem(fmt: D.Format, suppressTag: bool, suppressHeader: bool, indentLevel: nat)
      returns (err: Error)
      requires Valid()
      modifies this, reader, containerStack
      ensures Valid() && (err, State()) == D.AddGenericItem(old(State()), fmt, suppressTag, suppressHeader, indentLevel)
      ensures containerStack == old(containerStack) || fresh(containerStack)
      decreases |reader.input| - reader.lenRead, 2
    {
      hide Feeds, D.AddLine, D.AddContainerBody;
      var containerType := reader.GetType();
      err := AddLine(fmt, suppressTag, suppressHeader, indentLevel);
      if err == NoError && IsContainerType(containerType) {
        err := AddContainerBody(fmt, indentLevel, containerType);
      }
    }

    /** The members of the current container, and its closing line. */
    method AddContainerBody(fmt: D.Format, indentLevel: nat, containerType: int) returns (err: Error)
      requires Valid()
      modifies this, reader, containerStack
      ensures Valid() && (err, State()) == D.AddContainerBody(old(State()), fmt, indentLevel, containerType)
      ensures containerStack == old(containerStack) || fresh(containerStack)
      decreases |reader.input| - reader.lenRead, 1
    {
      hide Feeds, D.EnterContainer, D.ExitContainer, D.AddMemberItems;
      err := EnterContainer();
      if err != NoError {
        return;
      }
      err := AddMembers(fmt, indentLevel);
      if err != NoError {
        return;
      }
      err := ExitContainer();
      if err != NoError {
        return;
      }
      AddClosingLine(indentLevel, containerType);
    }

    method AddClosingLine(indentLevel: nat, containerType: int)
      requires Valid()
      modifies this`lastItem, this`items
      ensures Valid()
      ensures State() == D.AddString(old(State()), Repeat("    ", indentLevel) + D.CloseChar(containerType), true)
    {
      hide Feeds;
      var strBuf := new StringBuffer();
      strBuf.AppendRepeated("    ", indentLevel);
      strBuf.AppendStringF(D.CloseChar(containerType));
      var line := strBuf.CString();
      assert line == Repeat("    ", indentLevel) + D.CloseChar(containerType);
      AddString(line, true);
    }

    /** The loop over the members of the container just entered. */
    method AddMembers(fmt: D.Format, indentLevel: nat) returns (err: Error)
      requires Valid()
      modifies this, reader, containerStack
      ensures Valid() && (err, State()) == D.AddMemberItems(old(State()), fmt, indentLevel)
      ensures containerStack == old(containerStack) || fresh(containerStack)
      decreases |reader.input| - reader.lenRead, 0
    {
      hide Feeds, D.AddGenericItem, D.Next;
      while true
        invariant Valid() && (containerStack == old(containerStack) || fresh(containerStack))
        invariant reader.input == old(reader.input)
        invariant D.AddMemberItems(State(), fmt, indentLevel) == D.AddMemberItems(old(State()), fmt, indentLevel)
        decreases |reader.input| - reader.lenRead
      {
        err := Next();
        if err == EndOfTlv {
          return NoError;
        }
        if err != NoError {
          return;
        }
        err := AddGenericTLVItem(fmt, false, true, indentLevel + 1);
        if err != NoError {
          return;
        }
      }
    }
  }
}
