/** A camera session: the filter against repeated codes, and the loop over the frames. */
module ScanSession {
  import opened Consensus
  import opened Options
  import S = ScannerStates

  // ---- The filter, over a history of sightings

  datatype Sighting = Sighting(code: string, time: int)

  const WINDOW: int := 2500

  /** The two variables of the filter: the last code delivered and the time of the last sighting. */
  datatype Filter = Filter(lastCode: string, lastTime: int)

  /** Suppressed, with the time refreshed, or delivered. */
  function Sight(f: Filter, s: Sighting): (Filter, bool) {
    if s.code == f.lastCode && s.time - f.lastTime < WINDOW then (Filter(f.lastCode, s.time), false)
    else (Filter(s.code, s.time), true)
  }

  function FilterAfter(h: seq<Sighting>): Filter {
    if h == [] then Filter("", 0) else Sight(FilterAfter(h[..|h| - 1]), h[|h| - 1]).0
  }

  /** Whether sighting k of the history was delivered. */
  function Delivered(h: seq<Sighting>, k: nat): bool
    requires k < |h|
  {
    Sight(FilterAfter(h[..k]), h[k]).1
  }

  lemma SightStep(h: seq<Sighting>, s: Sighting)
    ensures FilterAfter(h + [s]) == Sight(FilterAfter(h), s).0
    ensures Delivered(h + [s], |h|) == Sight(FilterAfter(h), s).1
  {
    assert (h + [s])[..|h|] == h;
  }

  /** The codes of the sightings that were delivered, in order. */
  function Passed(h: seq<Sighting>): seq<string> {
    if h == [] then []
    else Passed(h[..|h| - 1]) + if Delivered(h, |h| - 1) then [h[|h| - 1].code] else []
  }

  lemma PassedStep(h: seq<Sighting>, s: Sighting)
    ensures Passed(h + [s]) == Passed(h) + if Delivered(h + [s], |h|) then [s.code] else []
  {
    assert (h + [s])[..|h|] == h;
  }

  /** The two variables always describe the sighting before. */
  lemma FilterRemembers(h: seq<Sighting>)
    ensures h != [] ==> FilterAfter(h) == Filter(h[|h| - 1].code, h[|h| - 1].time)
  {
  }

  /** i is the most recent sighting of the code of sighting k. */
  predicate MostRecent(h: seq<Sighting>, k: nat, i: nat) {
    i < k < |h| && h[i].code == h[k].code && forall j :: i < j < k ==> h[j].code != h[k].code
  }

  /** A different code was delivered in between. */
  predicate OtherDelivered(h: seq<Sighting>, i: nat, k: nat) {
    exists j :: i < j < k < |h| && h[j].code != h[k].code && Delivered(h, j)
  }

  /** The filter against its history: a code not seen before is delivered; a code seen before is
      delivered just when another one was delivered since its most recent sighting, suppressed
      sightings included, or when that is at least 2500 milliseconds ago. */
  lemma FilterMatchesHistory(h: seq<Sighting>, k: nat)
    requires k < |h| && forall i :: 0 <= i < |h| ==> h[i].code != ""
    ensures (forall i :: 0 <= i < k ==> h[i].code != h[k].code) ==> Delivered(h, k)
    ensures forall i: nat :: MostRecent(h, k, i) ==>
              (Delivered(h, k) <==> OtherDelivered(h, i, k) || h[k].time - h[i].time >= 2500)
  {
    hide FilterAfter;
    FilterRemembers(h[..k]);
    if k == 0 {
      FilterStart(h);
    }
    forall i: nat | MostRecent(h, k, i)
      ensures Delivered(h, k) <==> OtherDelivered(h, i, k) || h[k].time - h[i].time >= 2500
    {
      if i + 1 < k {
        FilterRemembers(h[..i + 1]);
        assert h[i + 1].code != h[k].code && Delivered(h, i + 1);
      }
    }
  }

  lemma FilterStart(h: seq<Sighting>)
    ensures FilterAfter(h[..0]) == Filter("", 0)
  {
  }

  /** A code held before the camera, seen again within the window each time, is delivered once. */
  lemma HeldCodeDeliversOnce(h: seq<Sighting>, k: nat)
    requires k < |h| && forall i :: 0 <= i < |h| ==> h[i].code == h[0].code != ""
    requires forall i :: 0 < i < |h| ==> h[i].time - h[i - 1].time < 2500
    ensures Delivered(h, k) <==> k == 0
  {
    hide FilterAfter;
    FilterRemembers(h[..k]);
    FilterStart(h);
  }

  // ---- The vote of a session

  /** The frames counted by the voter: fewer than twelve, no code in three of them. */
  ghost predicate Counting(since: seq<Frame>) {
    |since| < 12 && AllDuplicateFree(since) && forall c :: FramesWith(since, c) < 3
  }

  /** Some code is in three of the frames. */
  ghost predicate ThreeAgree(frames: seq<Frame>) {
    exists c :: FramesWith(frames, c) == 3
  }

  /** A voter of three frames out of twelve returns a code just when, with this frame, some code
      is in three; the code is in exactly three, and the count starts again. */
  lemma ThreeOfTwelve(since: seq<Frame>, f: Frame)
    requires Counting(since) && DuplicateFree(f)
    ensures var o := Push(since, f, 3, 12);
            && (o.code.Some? <==> ThreeAgree(since + [f]))
            && (o.code.Some? ==> FramesWith(since + [f], o.code.value) == 3)
            && |since| < 12 && Counting(o.since)
            && o.since == if o.code.Some? || |since| == 11 then [] else since + [f]
  {
    hide Push, Occurrences, FramesWith, DuplicateFree;
    forall c ensures Occurrences(since, c) == FramesWith(since, c) && Occurrences(since + [f], c) == FramesWith(since + [f], c) {
      OccurrencesAreFrames(since, c);
      OccurrencesAreFrames(since + [f], c);
    }
    PushDecides(since, f, 3, 12);
    NothingCounted();
    var o := Push(since, f, 3, 12);
    assert forall c :: FramesWith(o.since, c) == Occurrences(o.since, c);
    if o.code.None? {
      assert forall c :: Occurrences(since + [f], c) < 3;
    }
    PushSince(since, f);
  }

  lemma PushSince(since: seq<Frame>, f: Frame)
    requires |since| < 12
    ensures var o := Push(since, f, 3, 12); o.since == if o.code.Some? || |since| == 11 then [] else since + [f]
  {
    hide Leader, Entries, Occurrences;
  }

  lemma NothingCounted()
    ensures forall c :: FramesWith([], c) == 0 && Occurrences([], c) == 0
  {
  }

  // ---- The session

  class Session {
    var state: S.State
    const voter: ConsensusVoter
    const enableOcr: bool
    var lastCode: string
    var lastTime: int
    var frameCount: nat
    var misses: nat

    /** The codes handed to the caller. */
    var delivered: seq<string>

    /** Everything that happened to the state, and all codes that reached the filter. */
    ghost var run: seq<S.Input>
    ghost var sightings: seq<Sighting>

    /** Between two inputs the voter counts frames, three out of twelve being needed, no candidate is left halfway, every code handed over is one submission,
        and the codes handed over are those of the sightings the filter passed. */
    ghost predicate Valid()
      reads this, voter
    {
      && voter.Valid() && voter.threshold == 3 && voter.windowFrames == 12 && Counting(voter.since)
      && InStep()
      && state !in {S.CANDIDATE_FOUND, S.VALIDATING}
      && Filtered()
    }

    /** Variables and deliveries are what the sightings say. */
    ghost predicate Filtered()
      reads this
    {
      Filter(lastCode, lastTime) == FilterAfter(sightings) && delivered == Passed(sightings)
    }

    constructor (enableOcr: bool)
      ensures Valid() && fresh(voter) && state == S.IDLE && delivered == [] && run == []
    {
      NothingCounted();
      state := S.IDLE;
      voter := new ConsensusVoter(3, 12);
      this.enableOcr := enableOcr;
      lastCode, lastTime, frameCount, misses, delivered, run, sightings := "", 0, 0, 0, [], [], [];
    }

    /** State, run and deliveries agree. */
    ghost predicate InStep()
      reads this
    {
      state == S.After(run) && |delivered| == S.Taken(run, S.SUBMIT)
    }

    /** An event: ignored where the table has no entry. */
    method Send(e: S.Event)
      requires state == S.After(run)
      modifies this`state, this`run
      ensures run == old(run) + [S.Send(e)] && state == S.After(run) && state == S.Apply(old(state), S.Send(e))
      ensures S.Taken(run, S.SUBMIT)
              == S.Taken(old(run), S.SUBMIT) + if e == S.SUBMIT && S.Next(old(state), e).Some? then 1 else 0
    {
      var next := S.Next(state, e);
      if next.Some? {
        state := next.value;
      }
      assert (run + [S.Send(e)])[..|run|] == run;
      run := run + [S.Send(e)];
    }

    /** Candidate, validation and submission in one go. */
    method Submit(code: string)
      requires InStep() && state in {S.SCANNING, S.BARCODE_DETECTING, S.OCR_PROCESSING}
      modifies this`state, this`run, this`delivered
      ensures InStep() && state == S.SUBMITTING && delivered == old(delivered) + [code]
    {
      hide S.After, S.Taken;
      Send(S.CANDIDATE);
      Send(S.VALIDATE);
      Send(S.SUBMIT);
      delivered := delivered + [code];
    }

    /** The filter, and for a code that passes it the way to the submission. */
    method Detect(code: string, now: int) returns (passed: bool)
      requires voter.Valid() && InStep() && state in {S.SCANNING, S.BARCODE_DETECTING, S.OCR_PROCESSING}
      requires Filtered()
      modifies this`state, this`run, this`delivered, this`lastCode, this`lastTime, this`sightings, voter
      ensures voter.Valid() && InStep() && Filtered()
      ensures sightings == old(sightings) + [Sighting(code, now)]
      ensures passed == Delivered(sightings, |old(sightings)|)
      ensures passed ==> delivered == old(delivered) + [code] && state == S.SUBMITTING
      ensures !passed ==> delivered == old(delivered) && state == old(state) && voter.since == old(voter.since)
      ensures passed ==> voter.since == []
    {
      hide S.After, S.Taken, Push, Entries, Occurrences, FilterAfter, Delivered, Passed;
      PassedStep(sightings, Sighting(code, now));
      SightStep(sightings, Sighting(code, now));
      sightings := sightings + [Sighting(code, now)];
      if code == lastCode && now - lastTime < WINDOW {
        lastTime := now;
        return false;
      }
      lastCode := code;
      lastTime := now;
      voter.Reset();
      Submit(code);
      passed := true;
    }

    /** A bar code: the scan goes on unless the filter passes it. */
    method Hit(code: string, now: int)
      requires Valid() && state == S.BARCODE_DETECTING
      modifies this`state, this`run, this`delivered, this`lastCode, this`lastTime, this`sightings, voter
      ensures Valid() && sightings == old(sightings) + [Sighting(code, now)]
      ensures if Delivered(sightings, |old(sightings)|) then delivered == old(delivered) + [code] && state == S.SUBMITTING
              else delivered == old(delivered) && state == S.SCANNING
      ensures voter.since == if Delivered(sightings, |old(sightings)|) then [] else old(voter.since)
    {
      hide S.After, S.Taken, FilterAfter, Push, Entries, Occurrences, Delivered, Passed;
      var passed := Detect(code, now);
      if !passed {
        Send(S.RESUME);
      }
    }

    /** The text of the frame, if it is worth voting on: a code the voter returns goes to the
        filter, and nothing else does. */
    method Vote(recognised: Option<Frame>, now: int)
      requires Valid() && state == S.SCANNING && (recognised.Some? ==> DuplicateFree(recognised.value))
      modifies this`state, this`run, this`delivered, this`lastCode, this`lastTime, this`sightings, voter
      ensures Valid()
      ensures (state == S.SCANNING && delivered == old(delivered))
              || (state == S.SUBMITTING && |delivered| == |old(delivered)| + 1 && old(delivered) <= delivered)
      ensures match Voted(old(voter.since), recognised)
              case None => sightings == old(sightings) && delivered == old(delivered)
              case Some(code) =>
                && sightings == old(sightings) + [Sighting(code, now)]
                && delivered == old(delivered) + if Delivered(sightings, |old(sightings)|) then [code] else []
      ensures Agreed(old(voter.since), recognised, old(sightings), sightings)
      ensures voter.since == Since(old(voter.since), recognised)
    {
      hide S.After, S.Taken, FilterAfter, Push, Entries, Occurrences, Delivered, Passed, Counting, ThreeAgree, FramesWith, DuplicateFree;
      if recognised.Some? {
        ThreeOfTwelve(voter.since, recognised.value);
      }
      Send(S.OCR_SCAN);
      if recognised.Some? {
        var vote := voter.PushFrame(recognised.value);
        if vote.Some? {
          var passed := Detect(vote.value, now);
          if passed {
            return;
          }
        }
      }
      Send(S.RESUME);
    }

    /** A code is sighted with the text of a frame just when some code is then in three of the
        fewer than thirteen frames counted, and the code sighted is in three of them. */
    ghost predicate Agreed(since: seq<Consensus.Frame>, recognised: Option<Consensus.Frame>, before: seq<Sighting>, after: seq<Sighting>) {
      && (after == before || |after| == |before| + 1)
      && (|after| == |before| + 1 <==> recognised.Some? && ThreeAgree(since + [recognised.value]))
      && (|after| == |before| + 1 ==> |since| < 12 && FramesWith(since + [recognised.value], after[|before|].code) == 3)
    }

    /** The frames counted after the text of a frame: none once a code was returned or the twelfth
        was counted. */
    ghost function Since(since: seq<Consensus.Frame>, recognised: Option<Consensus.Frame>): seq<Consensus.Frame> {
      match recognised
      case None => since
      case Some(f) => if ThreeAgree(since + [f]) || |since| == 11 then [] else since + [f]
    }

    /** No bar code: one miss more, and the text vote when it is its turn. */
    method Miss(recognised: Option<Frame>, ocrBusy: bool, now: int)
      requires Valid() && state == S.BARCODE_DETECTING && frameCount > 0
      requires recognised.Some? ==> DuplicateFree(recognised.value)
      modifies this`state, this`run, this`delivered, this`lastCode, this`lastTime, this`sightings, this`misses, voter
      ensures Valid() && misses == old(misses) + 1
      ensures (state == S.SCANNING && delivered == old(delivered))
              || (state == S.SUBMITTING && |delivered| == |old(delivered)| + 1 && old(delivered) <= delivered)
      ensures match (if TextTurn(old(misses), frameCount - 1, ocrBusy) then Voted(old(voter.since), recognised) else None)
              case None => sightings == old(sightings) && delivered == old(delivered)
              case Some(code) =>
                && sightings == old(sightings) + [Sighting(code, now)]
                && delivered == old(delivered) + if Delivered(sightings, |old(sightings)|) then [code] else []
      ensures if enableOcr && old(misses) >= 17 && frameCount % 8 == 0 && !ocrBusy
              then Agreed(old(voter.since), recognised, old(sightings), sightings)
                   && voter.since == Since(old(voter.since), recognised)
              else sightings == old(sightings) && voter.since == old(voter.since)
    {
      hide S.After, S.Taken, FilterAfter, Push, Entries, Occurrences, Delivered, Voted, Passed, Counting, Agreed, Since;
      misses := misses + 1;
      Send(S.RESUME);
      if enableOcr && misses >= 18 && frameCount % 8 == 0 && !ocrBusy {
        Vote(recognised, now);
      }
    }

    /** The code the voter returns for the text of a frame. */
    function Voted(since: seq<Consensus.Frame>, recognised: Option<Consensus.Frame>): Option<string> {
      match recognised
      case None => None
      case Some(f) => Push(since, f, voter.threshold, voter.windowFrames).code
    }

    /** Whether the frame after these counts is one for the text vote: OCR is on and idle, it is at
        least the eighteenth miss, and the eighth frame. */
    predicate TextTurn(misses: nat, frameCount: nat, ocrBusy: bool) {
      enableOcr && misses + 1 >= 18 && (frameCount + 1) % 8 == 0 && !ocrBusy
    }

    /** One frame: nothing while a submission or its outcome is shown; otherwise the bar code
        reader first, and from the eighteenth miss in a row on, every eighth frame, the text vote. */
    method Frame(barcode: Option<string>, recognised: Option<Frame>, ocrBusy: bool, now: int)
      requires Valid() && state in {S.SCANNING, S.SUBMITTING, S.SUCCESS, S.ERROR}
      requires barcode.Some? ==> barcode.value != ""
      requires recognised.Some? ==> DuplicateFree(recognised.value)
      modifies this`state, this`run, this`delivered, this`lastCode, this`lastTime, this`sightings, this`frameCount, this`misses, voter
      ensures Valid()
      ensures old(state) != S.SCANNING ==>
                && state == old(state) && run == old(run) && delivered == old(delivered) && sightings == old(sightings)
                && frameCount == old(frameCount) && misses == old(misses) && voter.since == old(voter.since)
      ensures old(state) == S.SCANNING ==>
                || (state == S.SCANNING && delivered == old(delivered))
                || (state == S.SUBMITTING && |delivered| == |old(delivered)| + 1 && old(delivered) <= delivered)
      ensures old(state) == S.SCANNING && barcode.Some? ==>
                && sightings == old(sightings) + [Sighting(barcode.value, now)]
                && delivered == old(delivered)
                   + if Delivered(sightings, |old(sightings)|) then [barcode.value] else []
      ensures old(state) == S.SCANNING ==>
                && frameCount == old(frameCount) + 1
                && misses == if barcode.Some? then 0 else old(misses) + 1
      ensures old(state) == S.SCANNING && barcode.None? ==>
                match (if TextTurn(old(misses), old(frameCount), ocrBusy) then Voted(old(voter.since), recognised) else None)
                case None => sightings == old(sightings) && delivered == old(delivered)
                case Some(code) =>
                  && sightings == old(sightings) + [Sighting(code, now)]
                  && delivered == old(delivered) + if Delivered(sightings, |old(sightings)|) then [code] else []
      ensures old(state) == S.SCANNING && barcode.None? ==>
                if enableOcr && old(misses) >= 17 && (old(frameCount) + 1) % 8 == 0 && !ocrBusy
                then Agreed(old(voter.since), recognised, old(sightings), sightings)
                     && voter.since == Since(old(voter.since), recognised)
                else sightings == old(sightings) && voter.since == old(voter.since)
      ensures old(state) == S.SCANNING && barcode.Some? ==>
                voter.since == if Delivered(sightings, |old(sightings)|) then [] else old(voter.since)
    {
      hide S.After, S.Taken, FilterAfter, Push, Entries, Occurrences, Delivered, Voted, Passed, TextTurn, Counting, Agreed, Since;
      if state in {S.VALIDATING, S.SUBMITTING, S.SUCCESS, S.ERROR} {
        return;
      }
      frameCount := frameCount + 1;
      Send(S.BARCODE_SCAN);
      if barcode.Some? {
        misses := 0;
        Hit(barcode.value, now);
      } else {
        Miss(recognised, ocrBusy, now);
      }
    }

    /** Any other event, from outside: outcome, timer, camera, exit. */
    method Happen(e: S.Event)
      requires Valid() && e !in {S.CANDIDATE, S.VALIDATE, S.SUBMIT}
      modifies this`state, this`run
      ensures Valid() && run == old(run) + [S.Send(e)] && state == S.Apply(old(state), S.Send(e))
    {
      hide S.After, S.Taken, FilterAfter, Push, Entries, Occurrences, Passed;
      Send(e);
    }

    /** Whatever happened, the codes handed over are those of the sightings the filter passed, and no
        more codes were accepted than were handed over. */
    lemma AcceptedWereDelivered()
      requires Valid()
      ensures delivered == Passed(sightings)
      ensures S.Taken(run, S.ACCEPTED) + (if state == S.SUBMITTING then 1 else 0) <= |delivered|
    {
      S.Balance(run);
    }
  }
}
