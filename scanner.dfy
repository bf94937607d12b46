/** `analyze_procedures`: visit the `__TEXT` procedures in index order, skip
    those with more than one basic block or whose first instruction is not
    AArch64, and rename every other one's entry point to `ALIAS__` followed
    by what the recogniser returned. An exception inside the `try` only
    costs that procedure its rename; one raised before it (a procedure
    without blocks, no instruction at the block's start) ends the scan. */
module Scanner {
  import opened Results
  import opened Image
  import opened AliasStub

  /** One `setNameAtAddress(address, name)` request. */
  datatype Renaming = Renaming(address: int, name: string)

  /** What the loop did with one procedure. */
  datatype Step =
    | Skipped                            // more than one block, or not AArch64
    | Renamed(entry: int, name: string)  // the rename was issued
    | Caught(entry: int, fault: Fault)   // the `except` branch: no rename

  /** `f"ALIAS__{selector}"`: `str(None)` is `"None"`. */
  function AliasName(selector: Option<string>): string
  {
    "ALIAS__" + match selector
                case Some(s) => s
                case None => "None"
  }

  /** A procedure the recogniser is run on: one basic block, whose first
      instruction exists and is AArch64. */
  ghost predicate Candidate(doc: Document, p: Procedure)
  {
    |p.blocks| == 1 && p.blocks[0].start in doc.text.code && doc.text.code[p.blocks[0].start].arch == AArch64
  }

  /** One pass of the loop body. `Failure` is an exception raised outside the
      `try`, which leaves the loop. */
  function ProcedureStep(doc: Document, p: Procedure): Result<Step, Fault>
  {
    if |p.blocks| > 1 then Success(Skipped)
    else if |p.blocks| == 0 then Failure(NoBasicBlock)
    else
      var start := p.blocks[0].start;
      if start !in doc.text.code then Failure(NoInstruction(start))
      else if doc.text.code[start].arch != AArch64 then Success(Skipped)
      else match GetSelector(doc, p)
        case Success(selector) => Success(Renamed(p.entry, AliasName(selector)))
        case Failure(f) => Success(Caught(p.entry, f))
  }

  /** The steps taken so far, and the exception that ended the scan, if any. */
  datatype ScanResult = ScanResult(steps: seq<Step>, abort: Option<Fault>)

  /** The scan over the first `n` procedures. */
  function ScanPrefix(doc: Document, n: nat): ScanResult
    requires n <= |doc.text.procedures|
  {
    if n == 0 then ScanResult([], None)
    else
      var prev := ScanPrefix(doc, n - 1);
      if prev.abort.Some? then prev
      else match ProcedureStep(doc, doc.text.procedures[n - 1])
        case Success(step) => ScanResult(prev.steps + [step], None)
        case Failure(f) => ScanResult(prev.steps, Some(f))
  }

  /** The whole scan. */
  function Scan(doc: Document): ScanResult
  {
    ScanPrefix(doc, |doc.text.procedures|)
  }

  /** What a step adds to the naming store. */
  function StepRenames(step: Step): seq<Renaming>
  {
    match step
    case Renamed(e, n) => [Renaming(e, n)]
    case _ => []
  }

  /** The rename requests the steps issued, in order. */
  function Renames(steps: seq<Step>): seq<Renaming>
  {
    if steps == [] then []
    else
      StepRenames(steps[0]) + Renames(steps[1..])
  }

  // ------------------------------------------------------------ properties

  /** A step that renames adds its rename at the end; any other adds none. */
  lemma {:induction false} RenamesSnoc(steps: seq<Step>, step: Step)
    ensures Renames(steps + [step]) == Renames(steps) + StepRenames(step)
  {
    if steps == [] {
      assert [step][1..] == [];
    } else {
      RenamesSnoc(steps[1..], step);
      assert (steps + [step])[1..] == steps[1..] + [step];
    }
  }

  /** One more procedure, after a prefix that did not raise. */
  lemma ScanPrefixNext(doc: Document, n: nat, steps: seq<Step>, r: Result<Step, Fault>)
    requires n < |doc.text.procedures| && ScanPrefix(doc, n) == ScanResult(steps, None)
    requires ProcedureStep(doc, doc.text.procedures[n]) == r
    ensures ScanPrefix(doc, n + 1) == match r
                                     case Success(step) => ScanResult(steps + [step], None)
                                     case Failure(f) => ScanResult(steps, Some(f))
  {
  }

  /** Once an exception has ended the scan, later procedures change nothing. */
  lemma {:induction false} AbortIsFinal(doc: Document, n: nat, m: nat)
    requires n <= m <= |doc.text.procedures|
    requires ScanPrefix(doc, n).abort.Some?
    ensures ScanPrefix(doc, m) == ScanPrefix(doc, n)
    decreases m - n
  {
    if n < m {
      AbortIsFinal(doc, n, m - 1);
    }
  }

  /** Procedures are visited in index order, each exactly once: step i is
      what the loop body does with procedure i; the scan stops early only at
      an exception raised outside the `try`, by the procedure right after the
      last step. */
  lemma {:induction false} ScanInOrder(doc: Document, n: nat)
    requires n <= |doc.text.procedures|
    ensures var r := ScanPrefix(doc, n);
            && |r.steps| <= n
            && (forall i | 0 <= i < |r.steps| :: ProcedureStep(doc, doc.text.procedures[i]) == Success(r.steps[i]))
            && (r.abort.None? ==> |r.steps| == n)
            && (r.abort.Some? ==>
                  && |r.steps| < n
                  && ProcedureStep(doc, doc.text.procedures[|r.steps|]) == Failure(r.abort.value))
  {
    if n > 0 {
      ScanInOrder(doc, n - 1);
    }
  }

  /** The recogniser's failures never stop the scan: when every procedure
      has a block, and a single block starts at an instruction, all
      procedures are visited. */
  lemma {:induction false} ScanCompletes(doc: Document, n: nat)
    requires n <= |doc.text.procedures|
    requires forall k | 0 <= k < n :: |doc.text.procedures[k].blocks| >= 1
    requires forall k | 0 <= k < n :: |doc.text.procedures[k].blocks| == 1 ==>
               doc.text.procedures[k].blocks[0].start in doc.text.code
    ensures ScanPrefix(doc, n).abort == None && |ScanPrefix(doc, n).steps| == n
  {
    if n > 0 {
      ScanCompletes(doc, n - 1);
    }
  }

  /** What each step means: a rename exactly for candidates whose recogniser
      call returned, with `ALIAS__` and its result; a caught failure exactly
      for candidates whose call raised; a skip otherwise. */
  lemma StepMeaning(doc: Document, p: Procedure, step: Step)
    requires ProcedureStep(doc, p) == Success(step)
    ensures step.Renamed? <==> Candidate(doc, p) && GetSelector(doc, p).Success?
    ensures step.Renamed? ==> step.entry == p.entry && step.name == AliasName(GetSelector(doc, p).value)
    ensures step.Caught? <==> Candidate(doc, p) && GetSelector(doc, p).Failure?
    ensures step.Caught? ==> step.entry == p.entry && step.fault == GetSelector(doc, p).error
    ensures step.Skipped? <==> !Candidate(doc, p)
  {
  }

  /** A candidate whose block is not 16 bytes long is still renamed, to
      `ALIAS__None`. */
  lemma AliasNoneRename(doc: Document, p: Procedure)
    requires Candidate(doc, p) && p.blocks[0].end - p.blocks[0].start != StubLength
    ensures ProcedureStep(doc, p) == Success(Renamed(p.entry, "ALIAS__None"))
  {
    LengthPrefilter(doc, p);
    assert AliasName(None) == "ALIAS__None";
  }

  /** Every renamed step is in the rename log, and every entry of the log is
      a renamed step. */
  lemma {:induction false} RenamesAreRenamedSteps(steps: seq<Step>)
    ensures forall i | 0 <= i < |steps| :: steps[i].Renamed? ==>
              Renaming(steps[i].entry, steps[i].name) in Renames(steps)
    ensures forall r | r in Renames(steps) :: exists i | 0 <= i < |steps| :: steps[i] == Renamed(r.address, r.name)
  {
    if steps != [] {
      var tail := steps[1..];
      RenamesAreRenamedSteps(tail);
      assert forall i | 0 <= i < |tail| :: steps[i + 1] == tail[i];
      forall r | r in Renames(steps) ensures exists i | 0 <= i < |steps| :: steps[i] == Renamed(r.address, r.name) {
        if r !in StepRenames(steps[0]) {
          var k :| 0 <= k < |tail| && tail[k] == Renamed(r.address, r.name);
          assert steps[k + 1] == tail[k];
        }
      }
    }
  }

  // ---------------------------------------------------------- the loop

  /** The document's naming store: every `setNameAtAddress` it received, in
      order. */
  class NameStore {
    var log: seq<Renaming>

    constructor ()
      ensures log == []
    {
      log := [];
    }

    /** `document.setNameAtAddress(address, name)`. */
    method SetNameAtAddress(address: int, name: string)
      modifies this
      ensures log == old(log) + [Renaming(address, name)]
    {
      log := log + [Renaming(address, name)];
    }
  }

  /** One pass of the loop in `analyze_procedures()`: the procedure's step,
      or the exception it raises outside the `try`, issuing its rename to
      `store`. */
  method VisitProcedure(doc: Document, procedure: Procedure, store: NameStore) returns (r: Result<Step, Fault>)
    modifies store
    ensures r == ProcedureStep(doc, procedure)
    ensures store.log == old(store.log) + (if r.Success? then StepRenames(r.value) else [])
  {
    if |procedure.blocks| > 1 {
      return Success(Skipped);
    }
    if |procedure.blocks| == 0 {
      return Failure(NoBasicBlock);
    }
    var bb := procedure.blocks[0];
    if bb.start !in doc.text.code {
      return Failure(NoInstruction(bb.start));
    }
    var architecture := doc.text.code[bb.start].arch;
    if architecture == AArch64 {
      match GetSelector(doc, procedure) {
        case Success(selector) =>
          var name := AliasName(selector);
          store.SetNameAtAddress(procedure.entry, name);
          r := Success(Renamed(procedure.entry, name));
        case Failure(f) =>
          r := Success(Caught(procedure.entry, f));
      }
    } else {
      r := Success(Skipped);
    }
  }

  /** `analyze_procedures()`, issuing its renames to `store`; it returns the
      step taken for each procedure visited and the exception that ended
      the scan early, if any. */
  method AnalyzeProcedures(doc: Document, store: NameStore) returns (steps: seq<Step>, abort: Option<Fault>)
    modifies store
    ensures ScanResult(steps, abort) == Scan(doc)
    ensures store.log == old(store.log) + Renames(steps)
  {
    var procedures := doc.text.procedures;
    ghost var log0 := store.log;
    steps, abort := [], None;
    var p := 0;
    while p < |procedures|
      invariant 0 <= p <= |procedures|
      invariant ScanPrefix(doc, p) == ScanResult(steps, None)
      invariant store.log == log0 + Renames(steps)
    {
      var r := VisitProcedure(doc, procedures[p], store);
      ScanPrefixNext(doc, p, steps, r);
      match r {
        case Failure(f) =>
          abort := Some(f);
          AbortIsFinal(doc, p + 1, |procedures|);
          return;
        case Success(step) =>
          RenamesSnoc(steps, step);
          steps := steps + [step];
      }
      p := p + 1;
    }
  }
}
