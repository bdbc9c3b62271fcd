/** The states of the continuous scanner and what every sequence of events keeps. */
module ScannerStates {
  import opened Options

  datatype State = IDLE | CAMERA_STARTING | SCANNING | BARCODE_DETECTING | OCR_PROCESSING | CANDIDATE_FOUND
                 | VALIDATING | SUBMITTING | SUCCESS | ERROR | EXITING

  datatype Event = OPEN | CAMERA_READY | CAMERA_FAILED | BARCODE_SCAN | OCR_SCAN | CANDIDATE | VALIDATE | SUBMIT
                 | ACCEPTED | REJECTED | RESUME | EXIT | CLOSED

  /** The transition table. */
  function Next(s: State, e: Event): Option<State> {
    match s
    case IDLE => (match e case OPEN => Some(CAMERA_STARTING) case EXIT => Some(EXITING) case _ => None)
    case CAMERA_STARTING =>
      (match e case CAMERA_READY => Some(SCANNING) case CAMERA_FAILED => Some(ERROR) case EXIT => Some(EXITING) case _ => None)
    case SCANNING =>
      (match e case BARCODE_SCAN => Some(BARCODE_DETECTING) case OCR_SCAN => Some(OCR_PROCESSING)
               case CANDIDATE => Some(CANDIDATE_FOUND) case EXIT => Some(EXITING) case _ => None)
    case BARCODE_DETECTING =>
      (match e case CANDIDATE => Some(CANDIDATE_FOUND) case OCR_SCAN => Some(OCR_PROCESSING)
               case RESUME => Some(SCANNING) case EXIT => Some(EXITING) case _ => None)
    case OCR_PROCESSING =>
      (match e case CANDIDATE => Some(CANDIDATE_FOUND) case RESUME => Some(SCANNING) case EXIT => Some(EXITING) case _ => None)
    case CANDIDATE_FOUND =>
      (match e case VALIDATE => Some(VALIDATING) case RESUME => Some(SCANNING) case EXIT => Some(EXITING) case _ => None)
    case VALIDATING =>
      (match e case SUBMIT => Some(SUBMITTING) case REJECTED => Some(ERROR) case RESUME => Some(SCANNING)
               case EXIT => Some(EXITING) case _ => None)
    case SUBMITTING =>
      (match e case ACCEPTED => Some(SUCCESS) case REJECTED => Some(ERROR) case EXIT => Some(EXITING) case _ => None)
    case SUCCESS => (match e case RESUME => Some(SCANNING) case EXIT => Some(EXITING) case _ => None)
    case ERROR =>
      (match e case RESUME => Some(SCANNING) case OPEN => Some(CAMERA_STARTING) case EXIT => Some(EXITING) case _ => None)
    case EXITING => (match e case CLOSED => Some(IDLE) case _ => None)
  }

  /** What happens to the scanner: an event, which is ignored where the table has no entry, or a
      restart, which sets the state whatever it was. */
  datatype Input = Send(e: Event) | Restart

  function Apply(s: State, i: Input): State {
    match i
    case Restart => IDLE
    case Send(e) => (match Next(s, e) case Some(t) => t case None => s)
  }

  /** The state after a run from IDLE. */
  function After(run: seq<Input>): State {
    if run == [] then IDLE else Apply(After(run[..|run| - 1]), run[|run| - 1])
  }

  /** How often an event of the run was taken, and not ignored. */
  function Taken(run: seq<Input>, e: Event): nat {
    if run == [] then 0 else
    var n := |run| - 1;
    Taken(run[..n], e) + if run[n] == Send(e) && Next(After(run[..n]), e).Some? then 1 else 0
  }

  function One(b: bool): nat {
    if b then 1 else 0
  }

  /** Candidates, validations, submissions and acceptances balance, whatever happens: the state
      itself stands for the one that is under way. */
  lemma {:induction false} Balance(run: seq<Input>)
    ensures Taken(run, VALIDATE) + One(After(run) == CANDIDATE_FOUND) <= Taken(run, CANDIDATE)
    ensures Taken(run, SUBMIT) + One(After(run) == VALIDATING) <= Taken(run, VALIDATE)
    ensures Taken(run, ACCEPTED) + One(After(run) == SUBMITTING) <= Taken(run, SUBMIT)
    decreases |run|
  {
    if run != [] {
      Balance(run[..|run| - 1]);
    }
  }

  /** Hence nothing is accepted that was not submitted, validated and found before. */
  lemma AcceptedWasSubmitted(run: seq<Input>)
    ensures Taken(run, ACCEPTED) <= Taken(run, SUBMIT) <= Taken(run, VALIDATE) <= Taken(run, CANDIDATE)
  {
    Balance(run);
  }

  /** How often a run enters a state. */
  function Entered(run: seq<Input>, s: State): nat {
    if run == [] then 0 else
    var n := |run| - 1;
    Entered(run[..n], s) + One(After(run[..n]) != s && After(run) == s)
  }

  /** Success is reached once for every acceptance, so every success has a candidate of its own. */
  lemma {:induction false} SuccessesAreAccepted(run: seq<Input>)
    ensures Entered(run, SUCCESS) == Taken(run, ACCEPTED)
    decreases |run|
  {
    if run != [] {
      SuccessesAreAccepted(run[..|run| - 1]);
    }
  }

  lemma SuccessHasItsCandidate(run: seq<Input>)
    ensures Entered(run, SUCCESS) <= Taken(run, CANDIDATE)
  {
    SuccessesAreAccepted(run);
    AcceptedWasSubmitted(run);
  }

  /** A submission ends only by its outcome, by leaving, or by a restart. */
  lemma SubmittingIsLeftBy(s: State, i: Input)
    requires s == SUBMITTING
    ensures Apply(s, i) != SUBMITTING <==> i in {Send(ACCEPTED), Send(REJECTED), Send(EXIT), Restart}
  {
  }

  /** From entering SUBMITTING on, as long as none of the four happens, the scanner stays. */
  lemma {:induction false} SubmittingLasts(run: seq<Input>, more: seq<Input>)
    requires After(run) == SUBMITTING
    requires forall i :: 0 <= i < |more| ==> more[i] !in {Send(ACCEPTED), Send(REJECTED), Send(EXIT), Restart}
    ensures After(run + more) == SUBMITTING && Taken(run + more, SUBMIT) == Taken(run, SUBMIT)
    decreases |more|
  {
    if more == [] {
      assert run + more == run;
    } else {
      var n := |more| - 1;
      SubmittingLasts(run, more[..n]);
      assert (run + more)[..|run + more| - 1] == run + more[..n];
    }
  }

  /** Leaving is final until the scanner is closed or restarted. */
  lemma ExitingIsLeftBy(i: Input)
    ensures Apply(EXITING, i) != EXITING <==> i in {Send(CLOSED), Restart}
  {
  }

  // ---- The table by its events

  /** Where an event leads, from wherever it is taken. */
  function Target(e: Event): State {
    match e
    case OPEN => CAMERA_STARTING
    case CAMERA_READY => SCANNING
    case CAMERA_FAILED => ERROR
    case BARCODE_SCAN => BARCODE_DETECTING
    case OCR_SCAN => OCR_PROCESSING
    case CANDIDATE => CANDIDATE_FOUND
    case VALIDATE => VALIDATING
    case SUBMIT => SUBMITTING
    case ACCEPTED => SUCCESS
    case REJECTED => ERROR
    case RESUME => SCANNING
    case EXIT => EXITING
    case CLOSED => IDLE
  }

  /** In which states it is taken: the camera is opened from rest or after an error, a candidate
      is taken while scanning, each step of a submission follows the one before, an outcome belongs
      to a submission, everything begun can be given up for scanning but a submission, and only
      leaving itself cannot be left. */
  predicate TakenIn(e: Event, s: State) {
    match e
    case OPEN => s.IDLE? || s.ERROR?
    case CAMERA_READY => s.CAMERA_STARTING?
    case CAMERA_FAILED => s.CAMERA_STARTING?
    case BARCODE_SCAN => s.SCANNING?
    case OCR_SCAN => s.SCANNING? || s.BARCODE_DETECTING?
    case CANDIDATE => s.SCANNING? || s.BARCODE_DETECTING? || s.OCR_PROCESSING?
    case VALIDATE => s.CANDIDATE_FOUND?
    case SUBMIT => s.VALIDATING?
    case ACCEPTED => s.SUBMITTING?
    case REJECTED => s.VALIDATING? || s.SUBMITTING?
    case RESUME => s.BARCODE_DETECTING? || s.OCR_PROCESSING? || s.CANDIDATE_FOUND? || s.VALIDATING? || s.SUCCESS? || s.ERROR?
    case EXIT => !s.EXITING?
    case CLOSED => s.EXITING?
  }

  /** The table, read by its columns. */
  lemma TableByEvent(s: State, e: Event)
    ensures Next(s, e) == if TakenIn(e, s) then Some(Target(e)) else None
  {
    match s {
      case IDLE => case CAMERA_STARTING => case SCANNING => case BARCODE_DETECTING => case OCR_PROCESSING =>
      case CANDIDATE_FOUND => case VALIDATING => case SUBMITTING => case SUCCESS => case ERROR => case EXITING =>
    }
  }

  // ---- The scan goes on

  lemma AfterOne(run: seq<Input>, i: Input)
    ensures After(run + [i]) == Apply(After(run), i)
    ensures forall e :: Taken(run + [i], e) == Taken(run, e) + One(i == Send(e) && Next(After(run), e).Some?)
  {
    assert (run + [i])[..|run|] == run;
  }

  /** After an outcome, and from every candidate left unfinished, RESUME goes back to scanning;
      elsewhere it changes nothing. */
  lemma ResumeScans(run: seq<Input>)
    ensures var s := After(run);
            After(run + [Send(RESUME)])
            == if s.SUCCESS? || s.ERROR? || s.BARCODE_DETECTING? || s.OCR_PROCESSING? || s.CANDIDATE_FOUND? || s.VALIDATING?
               then SCANNING else s
  {
    AfterOne(run, Send(RESUME));
  }

  /** A frame loop can start again: after any outcome of a submission the next code can be
      submitted, with six events. */
  lemma NextSubmission(run: seq<Input>, outcome: Event)
    requires After(run) == SUBMITTING && (outcome == ACCEPTED || outcome == REJECTED)
    ensures var again := run + [Send(outcome)] + [Send(RESUME)] + [Send(BARCODE_SCAN)]
                             + [Send(CANDIDATE)] + [Send(VALIDATE)] + [Send(SUBMIT)];
            After(again) == SUBMITTING && Taken(again, SUBMIT) == Taken(run, SUBMIT) + 1
  {
    hide After, Taken, Next;
    StepTo(run, outcome);
    var r1 := run + [Send(outcome)];
    StepTo(r1, RESUME);
    var r2 := r1 + [Send(RESUME)];
    StepTo(r2, BARCODE_SCAN);
    var r3 := r2 + [Send(BARCODE_SCAN)];
    StepTo(r3, CANDIDATE);
    var r4 := r3 + [Send(CANDIDATE)];
    StepTo(r4, VALIDATE);
    StepTo(r4 + [Send(VALIDATE)], SUBMIT);
  }

  /** An event that is taken. */
  lemma StepTo(run: seq<Input>, e: Event)
    requires TakenIn(e, After(run))
    ensures After(run + [Send(e)]) == Target(e)
    ensures Taken(run + [Send(e)], SUBMIT) == Taken(run, SUBMIT) + One(e == SUBMIT)
  {
    hide After, Taken, Next, TakenIn, Target;
    AfterOne(run, Send(e));
    TableByEvent(After(run), e);
  }
}
