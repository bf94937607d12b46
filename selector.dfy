/** `getselector_aarch64`: recognise an alias stub by the length of its first
    basic block and the mnemonics of its five instructions, decode the
    selector reference address split across the ADRP page operand and the
    LDR offset operand, follow the first reference from that address and read
    the selector name there. `Success(None)` is the function's `return None`;
    `Failure` is an exception it raises. */
module AliasStub {
  import opened Results
  import opened Utf8
  import opened PyText
  import opened Image
  import opened StringReader

  /** `OPCODE_SIGNATURE_AARCH64`. */
  const Signature: seq<string> := ["adrp", "ldr", "adrp", "ldr", "br"]

  /** The only byte length of the first basic block that is accepted. */
  const StubLength: int := 16

  /** Width of one AArch64 instruction in bytes. */
  const Width: int := 4

  /** Address of the `i`-th instruction from `base`. */
  function Slot(base: int, i: int): int
  {
    base + Width * i
  }

  /** The mnemonics of the first `n` instructions from `base`, one per slot
      in order; fetching stops with a fault at the first slot that holds no
      instruction. */
  function Mnemonics(text: TextSegment, base: int, n: nat): (r: Result<seq<string>, Fault>)
    ensures r.Success? ==>
              && |r.value| == n
              && forall i | 0 <= i < n :: Slot(base, i) in text.code && r.value[i] == text.code[Slot(base, i)].mnemonic
    ensures r.Failure? ==>
              exists k | 0 <= k < n ::
                && r.error == NoInstruction(Slot(base, k))
                && Slot(base, k) !in text.code
                && forall i | 0 <= i < k :: Slot(base, i) in text.code
  {
    if n == 0 then Success([])
    else
      var init :- Mnemonics(text, base, n - 1);
      var ins :- InstructionAt(text, Slot(base, n - 1));
      Success(init + [ins.mnemonic])
  }

  /** `int(s, 16)`, raising on text that is not a hex literal. */
  function Hex(s: string): Result<nat, Fault>
  {
    match ParseHex(s)
    case Some(v) => Success(v)
    case None => Failure(BadHex(s))
  }

  /** The selector reference address: the page from the first operand of the
      instruction at `base` without its first character, plus the offset
      between the first `", "` and the next one in the first operand of the
      instruction at `base + 4`, without its first and last characters. Both
      are parsed as hex, the page operand completely before the offset
      operand is looked at. */
  function SelectorAddress(text: TextSegment, base: int): Result<int, Fault>
  {
    var i1 :- InstructionAt(text, base);
    var pageText :- RawArgument(i1, base, 1);
    var page :- Hex(DropFirst(pageText));
    var i2 :- InstructionAt(text, base + Width);
    var offsetText :- RawArgument(i2, base + Width, 1);
    var parts := Split(offsetText);
    if |parts| < 2 then Failure(NoOffsetPart(offsetText))
    else
      var offset :- Hex(Inner(parts[1]));
      Success(page + offset)
  }

  /** `getselector_aarch64(procedure)`. */
  function GetSelector(doc: Document, p: Procedure): Result<Option<string>, Fault>
  {
    if |p.blocks| == 0 then Failure(NoBasicBlock)
    else
      var bb := p.blocks[0];
      if bb.end - bb.start != StubLength then Success(None)
      else
        var base := bb.start;
        var opcodes :- Mnemonics(doc.text, base, |Signature|);
        if opcodes != Signature then Success(None)
        else
          var address :- SelectorAddress(doc.text, base);
          var seg :- SegmentAt(doc.segments, address);
          var refs := ReferencesFrom(seg, address);
          if |refs| == 0 then Failure(NoReference(address))
          else
            var name :- ReadStringValue(doc.memory, refs[0]);
            Success(Some(name))
  }

  // ------------------------------------------------------------ properties

  /** The five instructions from `base` exist and carry the signature's
      mnemonics, in order. */
  ghost predicate HasSignature(text: TextSegment, base: int)
  {
    forall i | 0 <= i < |Signature| ::
      Slot(base, i) in text.code && text.code[Slot(base, i)].mnemonic == Signature[i]
  }

  /** Five instructions carrying the signature's mnemonics are read as the
      signature. */
  lemma SignatureRead(text: TextSegment, base: int)
    requires HasSignature(text, base)
    ensures Mnemonics(text, base, |Signature|) == Success(Signature)
  {
    var r := Mnemonics(text, base, |Signature|);
    assert r.Success?;
    assert r.value == Signature;
  }

  /** Once the stub is recognised and its address resolved to a segment, the
      name is what is read at element 0 of the references from the address. */
  lemma NameFromFirstReference(doc: Document, p: Procedure, address: int, seg: Segment)
    requires |p.blocks| >= 1 && p.blocks[0].end - p.blocks[0].start == StubLength
    requires Mnemonics(doc.text, p.blocks[0].start, |Signature|) == Success(Signature)
    requires SelectorAddress(doc.text, p.blocks[0].start) == Success(address)
    requires SegmentAt(doc.segments, address) == Success(seg)
    ensures var refs := ReferencesFrom(seg, address);
            && (refs == [] ==> GetSelector(doc, p) == Failure(NoReference(address)))
            && (refs != [] ==> GetSelector(doc, p) == match ReadStringValue(doc.memory, refs[0])
                                                     case Success(name) => Success(Some(name))
                                                     case Failure(e) => Failure(e))
  {
  }

  /** A first block of any length other than 16 bytes gives `None`, whatever
      the instructions, segments and bytes are: nothing else is read. */
  lemma LengthPrefilter(doc: Document, p: Procedure)
    requires |p.blocks| >= 1 && p.blocks[0].end - p.blocks[0].start != StubLength
    ensures GetSelector(doc, p) == Success(None)
  {
  }

  /** A selector is only ever found for a 16-byte first block whose five
      instructions from its start carry exactly the signature's mnemonics,
      in order. */
  lemma SignatureRequired(doc: Document, p: Procedure)
    requires GetSelector(doc, p).Success? && GetSelector(doc, p).value.Some?
    ensures |p.blocks| >= 1 && p.blocks[0].end - p.blocks[0].start == StubLength
    ensures HasSignature(doc.text, p.blocks[0].start)
  {
    var base := p.blocks[0].start;
    var r := Mnemonics(doc.text, base, |Signature|);
    assert r.Success? && r.value == Signature;
  }

  /** One mnemonic that differs from the signature at its position gives
      `None`, once all five instructions exist. */
  lemma MismatchRejected(doc: Document, p: Procedure, k: nat)
    requires |p.blocks| >= 1 && p.blocks[0].end - p.blocks[0].start == StubLength
    requires forall i | 0 <= i < |Signature| :: Slot(p.blocks[0].start, i) in doc.text.code
    requires k < |Signature| && doc.text.code[Slot(p.blocks[0].start, k)].mnemonic != Signature[k]
    ensures GetSelector(doc, p) == Success(None)
  {
    var r := Mnemonics(doc.text, p.blocks[0].start, |Signature|);
    assert r.Success? ==> r.value[k] != Signature[k];
  }

  /** All five instructions are fetched before any mnemonic is compared: a
      missing one raises, even where an earlier mnemonic already differs. */
  lemma MissingInstructionRaises(doc: Document, p: Procedure, k: nat)
    requires |p.blocks| >= 1 && p.blocks[0].end - p.blocks[0].start == StubLength
    requires k < |Signature| && Slot(p.blocks[0].start, k) !in doc.text.code
    requires forall i | 0 <= i < k :: Slot(p.blocks[0].start, i) in doc.text.code
    ensures GetSelector(doc, p) == Failure(NoInstruction(Slot(p.blocks[0].start, k)))
  {
    var base := p.blocks[0].start;
    var r := Mnemonics(doc.text, base, |Signature|);
    assert r.Success? ==> Slot(base, k) in doc.text.code;
    assert r.Failure?;
    var k' :| 0 <= k' < |Signature| && r.error == NoInstruction(Slot(base, k'))
              && Slot(base, k') !in doc.text.code && forall i | 0 <= i < k' :: Slot(base, i) in doc.text.code;
    assert k' < k ==> Slot(base, k') in doc.text.code;
    assert k < k' ==> Slot(base, k) in doc.text.code;
  }

  /** The page operand as the disassembler prints it: one prefix
      character before `0x` and the hex digits. */
  function PageOperand(prefix: char, page: nat): string
  {
    [prefix] + ("0x" + ToHex(page))
  }

  lemma PageOperandRoundTrip(prefix: char, page: nat)
    ensures Hex(DropFirst(PageOperand(prefix, page))) == Success(page)
  {
    ParseHexRoundTrip(page);
    assert DropFirst(PageOperand(prefix, page)) == "0x" + ToHex(page);
  }

  /** `#0x`, the hex digits and `]`: the part of a printed offset operand
      after the separator. */
  function OffsetTail(offset: nat): string
  {
    "#" + ("0x" + ToHex(offset)) + "]"
  }

  lemma OffsetTailHasNoComma(offset: nat)
    ensures forall k | 0 <= k < |OffsetTail(offset)| :: OffsetTail(offset)[k] != ','
  {
    var h := ToHex(offset);
    var b := OffsetTail(offset);
    forall k | 0 <= k < |b| ensures b[k] != ',' {
      if 3 <= k < 3 + |h| { assert b[k] == h[k - 3]; assert IsHexDigit(h[k - 3]); }
    }
  }

  lemma OffsetTailDecodes(offset: nat)
    ensures Hex(Inner(OffsetTail(offset))) == Success(offset)
  {
    ParseHexRoundTrip(offset);
    var b := OffsetTail(offset);
    assert b[1..|b| - 1] == "0x" + ToHex(offset);
  }

  /** The offset operand as the disassembler prints it: a bracketed register
      without commas, `", "`, `#0x`, the hex digits and `]`. */
  function OffsetOperand(register: string, offset: nat): string
  {
    "[" + register + Sep + OffsetTail(offset)
  }

  /** Such an operand has a second piece, and it decodes to the offset. */
  lemma OffsetOperandRoundTrip(register: string, offset: nat)
    requires forall k | 0 <= k < |register| :: register[k] != ','
    ensures |Split(OffsetOperand(register, offset))| >= 2
    ensures Hex(Inner(Split(OffsetOperand(register, offset))[1])) == Success(offset)
  {
    OffsetTailHasNoComma(offset);
    OffsetTailDecodes(offset);
    var a := "[" + register;
    forall k | 0 <= k < |a| ensures a[k] != ',' {
      if k > 0 { assert a[k] == register[k - 1]; }
    }
    SplitAround(a, OffsetTail(offset));
  }

  /** The address is the page plus the offset once both operands decode. */
  lemma SelectorAddressIsSum(text: TextSegment, base: int, page: nat, offset: nat)
    requires base in text.code && |text.code[base].args| >= 2
    requires Hex(DropFirst(text.code[base].args[1])) == Success(page)
    requires base + Width in text.code && |text.code[base + Width].args| >= 2
    requires var parts := Split(text.code[base + Width].args[1]);
             |parts| >= 2 && Hex(Inner(parts[1])) == Success(offset)
    ensures SelectorAddress(text, base) == Success(page + offset)
  {
  }

  /** The address decodes as page plus offset when both operands have the
      shape the disassembler prints. */
  lemma SelectorAddressRoundTrip(text: TextSegment, base: int, page: nat, offset: nat, prefix: char, register: string)
    requires Slot(base, 0) in text.code && |text.code[Slot(base, 0)].args| >= 2
    requires text.code[Slot(base, 0)].args[1] == PageOperand(prefix, page)
    requires Slot(base, 1) in text.code && |text.code[Slot(base, 1)].args| >= 2
    requires text.code[Slot(base, 1)].args[1] == OffsetOperand(register, offset)
    requires forall k | 0 <= k < |register| :: register[k] != ','
    ensures SelectorAddress(text, base) == Success(page + offset)
  {
    PageOperandRoundTrip(prefix, page);
    OffsetOperandRoundTrip(register, offset);
    assert Slot(base, 0) == base && Slot(base, 1) == base + Width;
    SelectorAddressIsSum(text, base, page, offset);
  }

  /** An offset operand without `", "` raises instead of standing for a zero
      offset. */
  lemma MissingOffsetRaises(text: TextSegment, base: int)
    requires base in text.code && base + Width in text.code && |text.code[base + Width].args| >= 2
    requires Free(text.code[base + Width].args[1])
    ensures SelectorAddress(text, base).Failure?
    ensures (|text.code[base].args| >= 2 && IsHexLiteral(DropFirst(text.code[base].args[1]))) ==>
              SelectorAddress(text, base) == Failure(NoOffsetPart(text.code[base + Width].args[1]))
  {
    SplitHasSecond(text.code[base + Width].args[1]);
  }

  /** A page operand that is not a hex literal once its first character is
      dropped raises, before the offset operand is looked at. */
  lemma BadPageRaises(text: TextSegment, base: int)
    requires base in text.code && |text.code[base].args| >= 2
    requires !IsHexLiteral(DropFirst(text.code[base].args[1]))
    ensures SelectorAddress(text, base) == Failure(BadHex(DropFirst(text.code[base].args[1])))
  {
  }

  /** With a valid page, an offset piece that is not a hex literal once its
      first and last characters are dropped raises on that piece. */
  lemma BadOffsetRaises(text: TextSegment, base: int)
    requires base in text.code && |text.code[base].args| >= 2
    requires IsHexLiteral(DropFirst(text.code[base].args[1]))
    requires base + Width in text.code && |text.code[base + Width].args| >= 2
    requires var parts := Split(text.code[base + Width].args[1]); |parts| >= 2 && !IsHexLiteral(Inner(parts[1]))
    ensures SelectorAddress(text, base) == Failure(BadHex(Inner(Split(text.code[base + Width].args[1])[1])))
  {
  }

  /** For a recognised stub, any exception raised while computing the
      selector address is raised by the recogniser itself. */
  lemma AddressFaultRaises(doc: Document, p: Procedure, f: Fault)
    requires |p.blocks| >= 1 && p.blocks[0].end - p.blocks[0].start == StubLength
    requires HasSignature(doc.text, p.blocks[0].start)
    requires SelectorAddress(doc.text, p.blocks[0].start) == Failure(f)
    ensures GetSelector(doc, p) == Failure(f)
  {
    SignatureRead(doc.text, p.blocks[0].start);
  }

  /** A recognised stub whose address has no reference from it raises: the
      name is always looked for at element 0 of the list. */
  lemma NoReferenceRaises(doc: Document, p: Procedure, address: int, seg: Segment)
    requires |p.blocks| >= 1 && p.blocks[0].end - p.blocks[0].start == StubLength
    requires HasSignature(doc.text, p.blocks[0].start)
    requires SelectorAddress(doc.text, p.blocks[0].start) == Success(address)
    requires SegmentAt(doc.segments, address) == Success(seg) && ReferencesFrom(seg, address) == []
    ensures GetSelector(doc, p) == Failure(NoReference(address))
  {
    SignatureRead(doc.text, p.blocks[0].start);
    NameFromFirstReference(doc, p, address, seg);
  }

  /** End to end: a recognised stub whose address resolves, through the
      first reference `q` from it, to a name stored as a zero-terminated
      string is resolved to exactly that name. Later references and the
      section `q` lies in play no part. `SelectorAddressRoundTrip` gives the
      address for operands as the disassembler prints them. */
  lemma StubRoundTrip(doc: Document, p: Procedure, address: int, seg: Segment, q: int, name: seq<byte>)
    requires |p.blocks| >= 1 && p.blocks[0].end - p.blocks[0].start == StubLength
    requires HasSignature(doc.text, p.blocks[0].start)
    requires SelectorAddress(doc.text, p.blocks[0].start) == Success(address)
    requires SegmentAt(doc.segments, address) == Success(seg)
    requires |ReferencesFrom(seg, address)| >= 1 && ReferencesFrom(seg, address)[0] == q
    requires StoresCString(doc.memory, q, name)
    ensures GetSelector(doc, p) == Success(Some(Latin1(name)))
  {
    CStringOf(doc.memory, q, name);
    SignatureRead(doc.text, p.blocks[0].start);
    NameFromFirstReference(doc, p, address, seg);
  }
}
