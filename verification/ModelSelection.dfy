/** The saved choice of search model and the receipt for the Gemma terms
    (src/model_setup.rs:110-148, 285-315). */
module ModelSelection {
  import opened Prelude

  datatype SelectedModel = TermsRequired | Gemma | Nomic

  /** `selection.json`: missing or unreadable, not decodable, or naming a model. */
  datatype SelectionFile = NoSelection | BadSelection | Names(selected: string)

  /** `acceptance.json`, with whether it is for the terms and the revision this
      version pins. */
  datatype Receipt = NoReceipt | BadReceipt | Receipt(current: bool)

  datatype ModelDisk = ModelDisk(selection: SelectionFile, gemmaRoot: bool, receipt: Receipt) {
    /** The receipt lies inside Gemma's directory. */
    predicate Valid() {
      receipt.NoReceipt? || gemmaRoot
    }
  }

  function Selected(disk: ModelDisk): (r: Result<SelectedModel, string>) {
    match disk.selection
    case NoSelection => Ok(TermsRequired)
    case BadSelection => Err("invalid local model selection")
    case Names(name) =>
      if name == "gemma" then
        match disk.receipt
        case NoReceipt => Ok(TermsRequired)
        case BadReceipt => Err("invalid Gemma acceptance receipt")
        case Receipt(current) => Ok(if current then Gemma else TermsRequired)
      else if name == "nomic" then Ok(Nomic)
      else Ok(TermsRequired)
  }

  /** Which step of persisting a choice fails, if any. A failing step may have
      done part of its work: made the directory, or removed the receipt. */
  datatype PersistFailure = NoFailure | FailsAt(step: nat, partly: bool)

  function StepCount(model: SelectedModel): (n: nat) {
    match model case TermsRequired => 0 case Gemma => 3 case Nomic => 2
  }

  /** One step that succeeds. Accepting: Gemma's directory, the receipt, the
      selection. Declining: Gemma's directory and all in it goes, the selection. */
  function StepDone(disk: ModelDisk, model: SelectedModel, step: nat): (r: ModelDisk)
    requires step < StepCount(model)
  {
    match (model, step)
    case (Gemma, 0) => disk.(gemmaRoot := true)
    case (Gemma, 1) => disk.(receipt := Receipt(true))
    case (Gemma, _) => disk.(selection := Names("gemma"))
    case (_, 0) => disk.(gemmaRoot := false, receipt := NoReceipt)
    case (_, _) => disk.(selection := Names("nomic"))
  }

  function StepFailed(disk: ModelDisk, model: SelectedModel, step: nat, partly: bool): (r: ModelDisk)
    requires step < StepCount(model)
  {
    if !partly || step != 0 then disk
    else match model case Gemma => disk.(gemmaRoot := true) case _ => disk.(receipt := NoReceipt)
  }

  /** Persisting a choice from one of its steps on. */
  function PersistFrom(disk: ModelDisk, model: SelectedModel, step: nat, failure: PersistFailure)
    : (r: (ModelDisk, bool))
    requires step <= StepCount(model)
    decreases StepCount(model) - step
  {
    if model == TermsRequired then (disk, false)
    else if step == StepCount(model) then (disk, true)
    else if failure.FailsAt? && failure.step == step then (StepFailed(disk, model, step, failure.partly), false)
    else PersistFrom(StepDone(disk, model, step), model, step + 1, failure)
  }

  class ModelSetup {
    var selection: SelectionFile
    var gemmaRoot: bool
    var receipt: Receipt

    ghost function Model(): (r: ModelDisk)
      reads this
    {
      ModelDisk(selection, gemmaRoot, receipt)
    }

    constructor (disk: ModelDisk)
      ensures Model() == disk
    {
      selection, gemmaRoot, receipt := disk.selection, disk.gemmaRoot, disk.receipt;
    }

    method WriteSelection(name: string, fails: bool) returns (ok: bool)
      modifies `selection
      ensures ok == !fails
      ensures selection == if fails then old(selection) else Names(name)
    {
      if fails { return false; }
      selection := Names(name);
      return true;
    }

    method AcceptGemma(failure: PersistFailure) returns (ok: bool)
      modifies this
      ensures (Model(), ok) == PersistFrom(old(Model()), Gemma, 0, failure)
    {
      if failure.FailsAt? && failure.step == 0 {
        if failure.partly { gemmaRoot := true; }
        return false;
      }
      gemmaRoot := true;
      if failure.FailsAt? && failure.step == 1 {
        return false;
      }
      receipt := Receipt(true);
      ok := WriteSelection("gemma", failure.FailsAt? && failure.step == 2);
    }

    /** A missing directory is nothing to remove. */
    method DeclineGemma(failure: PersistFailure) returns (ok: bool)
      requires Model().Valid()
      modifies this
      ensures (Model(), ok)
              == PersistFrom(old(Model()), Nomic, 0, if old(gemmaRoot) then failure else SkipRemoval(failure))
    {
      if gemmaRoot {
        if failure.FailsAt? && failure.step == 0 {
          if failure.partly { receipt := NoReceipt; }
          return false;
        }
        gemmaRoot, receipt := false, NoReceipt;
      }
      ok := WriteSelection("nomic", failure.FailsAt? && failure.step == 1);
    }
  }

  /** With nothing to remove, only writing the selection can fail. */
  function SkipRemoval(failure: PersistFailure): (r: PersistFailure) {
    if failure.FailsAt? && failure.step == 0 then NoFailure else failure
  }

  /** Gemma is selected only under a receipt for the terms this version pins, Nomic
      by its name alone, and what cannot be decoded is an error; in every other
      case the terms are asked for. */
  lemma SelectedIff(disk: ModelDisk)
    ensures Selected(disk) == Ok(Gemma) <==> disk.selection == Names("gemma") && disk.receipt == Receipt(true)
    ensures Selected(disk) == Ok(Nomic) <==> disk.selection == Names("nomic")
    ensures Selected(disk).Err? <==>
              disk.selection.BadSelection? || (disk.selection == Names("gemma") && disk.receipt.BadReceipt?)
    ensures Selected(disk) == Ok(TermsRequired) <==>
              || disk.selection.NoSelection?
              || (disk.selection == Names("gemma") && disk.receipt in {NoReceipt, Receipt(false)})
              || (disk.selection.Names? && disk.selection.selected !in {"gemma", "nomic"})
  {
    assert "gemma" != "nomic";
  }

  /** A choice that was persisted is the choice read back. */
  lemma PersistedIsSelected(disk: ModelDisk, model: SelectedModel, failure: PersistFailure)
    requires PersistFrom(disk, model, 0, failure).1
    ensures Selected(PersistFrom(disk, model, 0, failure).0) == Ok(model)
  {
    hide StepFailed;
    var first := StepDone(disk, model, 0);
    var second := StepDone(first, model, 1);
    assert PersistFrom(disk, model, 0, failure) == PersistFrom(second, model, 2, failure);
    if model.Gemma? {
      assert PersistFrom(second, model, 2, failure) == PersistFrom(StepDone(second, model, 2), model, 3, failure);
    }
  }

  /** A choice reported as failed leaves what `selected` answers alone, with
      exactly two exceptions, both with "gemma" selected: a failed acceptance
      that got as far as a receipt where none was current selects Gemma after
      all; a failed decline that removed the receipt falls back to asking for
      the terms. */
  lemma FailedChoiceKeepsSelectionIff(disk: ModelDisk, model: SelectedModel, failure: PersistFailure)
    requires !PersistFrom(disk, model, 0, failure).1
    ensures var after := PersistFrom(disk, model, 0, failure).0;
            Selected(after) == Selected(disk)
            <==> !(disk.selection == Names("gemma")
                   && match model
                      case TermsRequired => false
                      case Gemma => failure.step == 2 && disk.receipt != Receipt(true)
                      case Nomic =>
                        && (failure.step == 1 || failure.partly)
                        && (disk.receipt == BadReceipt || disk.receipt == Receipt(true)))
  {
    if model != TermsRequired {
      var first := StepDone(disk, model, 0);
      var second := StepDone(first, model, 1);
      assert PersistFrom(disk, model, 0, NoFailure) == PersistFrom(first, model, 1, NoFailure);
      if failure.FailsAt? && failure.step == 0 {
        assert PersistFrom(disk, model, 0, failure).0 == StepFailed(disk, model, 0, failure.partly);
      } else if failure.FailsAt? && failure.step == 1 {
        assert PersistFrom(disk, model, 0, failure).0 == StepFailed(first, model, 1, failure.partly);
      } else if failure.FailsAt? && failure.step == 2 && model.Gemma? {
        assert PersistFrom(first, model, 1, failure) == PersistFrom(second, model, 2, failure);
        assert PersistFrom(disk, model, 0, failure).0 == StepFailed(second, model, 2, failure.partly);
      } else {
        PersistSucceeds(disk, model, failure);
      }
    }
  }

  lemma PersistSucceeds(disk: ModelDisk, model: SelectedModel, failure: PersistFailure)
    requires model != TermsRequired && (failure.FailsAt? ==> failure.step >= StepCount(model))
    ensures PersistFrom(disk, model, 0, failure).1
  {
    var first := StepDone(disk, model, 0);
    var second := StepDone(first, model, 1);
    assert PersistFrom(disk, model, 0, failure) == PersistFrom(second, model, 2, failure);
    if model.Gemma? {
      assert PersistFrom(second, model, 2, failure) == PersistFrom(StepDone(second, model, 2), model, 3, failure);
    }
  }

  /** Both exceptions, one after the other: a decline that fails to write its
      selection takes Gemma's acceptance back, and an acceptance that fails to
      write its selection brings Gemma back. */
  lemma FailedChoicesChangeTheAnswer()
    ensures var accepted := ModelDisk(Names("gemma"), true, Receipt(true));
            var declined := PersistFrom(accepted, Nomic, 0, FailsAt(1, false));
            var again := PersistFrom(declined.0, Gemma, 0, FailsAt(2, false));
            && accepted.Valid() && Selected(accepted) == Ok(Gemma)
            && !declined.1 && Selected(declined.0) == Ok(TermsRequired)
            && !again.1 && Selected(again.0) == Ok(Gemma)
  {
    var accepted := ModelDisk(Names("gemma"), true, Receipt(true));
    var removed := ModelDisk(Names("gemma"), false, NoReceipt);
    assert PersistFrom(accepted, Nomic, 0, FailsAt(1, false)) == PersistFrom(removed, Nomic, 1, FailsAt(1, false));
    assert PersistFrom(accepted, Nomic, 0, FailsAt(1, false)) == (removed, false);
    var made := removed.(gemmaRoot := true);
    assert PersistFrom(removed, Gemma, 0, FailsAt(2, false)) == PersistFrom(made, Gemma, 1, FailsAt(2, false));
    assert PersistFrom(made, Gemma, 1, FailsAt(2, false)) == PersistFrom(accepted, Gemma, 2, FailsAt(2, false));
    assert PersistFrom(accepted, Gemma, 2, FailsAt(2, false)) == (accepted, false);
  }

  /** Accepting leaves Gemma's directory, a current receipt in it and Gemma
      selected; declining leaves neither directory nor receipt, and Nomic selected.
      Nothing else counts as persisted. */
  lemma PersistedLeaves(disk: ModelDisk, model: SelectedModel, failure: PersistFailure)
    requires PersistFrom(disk, model, 0, failure).1
    ensures model != TermsRequired && (failure.FailsAt? ==> failure.step >= if model.Gemma? then 3 else 2)
    ensures PersistFrom(disk, model, 0, failure).0
            == if model.Gemma? then ModelDisk(Names("gemma"), true, Receipt(true))
               else ModelDisk(Names("nomic"), false, NoReceipt)
  {
    hide StepFailed;
    var first := StepDone(disk, model, 0);
    var second := StepDone(first, model, 1);
    assert PersistFrom(disk, model, 0, failure) == PersistFrom(first, model, 1, failure)
        == PersistFrom(second, model, 2, failure);
    if model.Gemma? {
      assert PersistFrom(second, model, 2, failure) == PersistFrom(StepDone(second, model, 2), model, 3, failure);
    }
  }

  /** The selection is written last: a choice that failed leaves it as it was, and
      the receipt still lies in its directory. */
  lemma FailureKeepsSelection(disk: ModelDisk, model: SelectedModel, failure: PersistFailure)
    requires !PersistFrom(disk, model, 0, failure).1
    ensures var after := PersistFrom(disk, model, 0, failure).0;
            after.selection == disk.selection && (disk.Valid() ==> after.Valid())
  {
    if model != TermsRequired {
      var first := StepDone(disk, model, 0);
      var second := StepDone(first, model, 1);
      if failure.NoFailure? || failure.step >= StepCount(model) {
        PersistSucceeds(disk, model, failure);
      } else if failure.step == 0 {
        assert PersistFrom(disk, model, 0, failure).0 == StepFailed(disk, model, 0, failure.partly);
      } else {
        assert PersistFrom(disk, model, 0, failure) == PersistFrom(first, model, 1, failure);
        if failure.step == 2 { assert PersistFrom(first, model, 1, failure) == PersistFrom(second, model, 2, failure); }
      }
    }
  }
}
