/** The disassembler's view of the binary that the script reads, as plain
    values: the `__TEXT` segment with its procedures and decoded
    instructions, the segments with their cross-reference tables, and the
    bytes of the image. A Hopper call that returns `None` and is then used,
    or an index past the end of a list, raises in Python; each such place is
    one constructor of `Fault`. */
module Image {
  import opened Results
  import opened Utf8

  /** The architecture tag Hopper reports for AArch64 instructions. */
  const AArch64: int := 5

  /** A decoded instruction: `getInstructionString()`, the raw operand
      strings `getRawArgument(i)` and `getArchitecture()`. */
  datatype Instruction = Instruction(mnemonic: string, args: seq<string>, arch: int)

  /** A basic block, by its starting and ending addresses. */
  datatype BasicBlock = BasicBlock(start: int, end: int)

  /** A procedure: its entry point and its basic blocks, block 0 first. */
  datatype Procedure = Procedure(entry: int, blocks: seq<BasicBlock>)

  /** A segment: the addresses `[start, end)` it covers and its table of
      references from an address. */
  datatype Segment = Segment(start: int, end: int, refsFrom: map<int, seq<int>>)

  /** The `__TEXT` segment: its procedures, by index, and its instructions,
      by address. */
  datatype TextSegment = TextSegment(procedures: seq<Procedure>, code: map<int, Instruction>)

  /** Everything the script reads from the current document. */
  datatype Document = Document(memory: map<int, byte>, segments: seq<Segment>, text: TextSegment)

  /** The exceptions the script can raise, one per place in the code. */
  datatype Fault =
    | NoBasicBlock                          // getBasicBlock(0) of a procedure without blocks
    | NoInstruction(address: int)           // getInstructionAtAddress returned None
    | NoOperand(address: int)               // getRawArgument(1) of an instruction with fewer operands
    | NoOffsetPart(text: string)            // split(', ')[1] of text without ", "
    | BadHex(text: string)                  // int(text, 16) raised ValueError
    | NoSegment(address: int)               // getSegmentAtAddress returned None
    | NoReference(address: int)             // [0] of an empty reference list
    | UnreadableByte(address: int)          // readByte outside the image's bytes

  /** `getInstructionAtAddress(address)` followed by a use of the result. */
  function InstructionAt(text: TextSegment, address: int): Result<Instruction, Fault>
  {
    if address in text.code then Success(text.code[address]) else Failure(NoInstruction(address))
  }

  /** `getRawArgument(index)` followed by a use of the result. */
  function RawArgument(ins: Instruction, address: int, index: nat): Result<string, Fault>
  {
    if index < |ins.args| then Success(ins.args[index]) else Failure(NoOperand(address))
  }

  predicate Covers(seg: Segment, address: int)
  {
    seg.start <= address < seg.end
  }

  /** `getSegmentAtAddress(address)`: the first segment covering the address. */
  function SegmentAt(segments: seq<Segment>, address: int): (r: Result<Segment, Fault>)
    ensures r.Failure? <==> forall k | 0 <= k < |segments| :: !Covers(segments[k], address)
    ensures r.Failure? ==> r.error == NoSegment(address)
    ensures r.Success? ==> exists k | 0 <= k < |segments| :: segments[k] == r.value
                             && Covers(r.value, address)
                             && forall j | 0 <= j < k :: !Covers(segments[j], address)
    decreases |segments|
  {
    if |segments| == 0 then Failure(NoSegment(address))
    else if Covers(segments[0], address) then Success(segments[0])
    else
      var r := SegmentAt(segments[1..], address);
      assert forall k | 1 <= k < |segments| :: segments[k] == segments[1..][k - 1];
      r
  }

  /** `getReferencesFromAddress(address)`: the empty list where the segment
      records none. */
  function ReferencesFrom(seg: Segment, address: int): seq<int>
  {
    if address in seg.refsFrom then seg.refsFrom[address] else []
  }

  /** `readByte(address)`. */
  function ReadByte(memory: map<int, byte>, address: int): Result<byte, Fault>
  {
    if address in memory then Success(memory[address]) else Failure(UnreadableByte(address))
  }
}
