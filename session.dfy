/** The DFU state of the main page as a value: the one-shot flags, the progress
    dialog, and the log of writes. `Start` and `Step` specify what starting an
    upload and handling one control-point notification do to it. */
module DfuSession {
  import opened Wrappers
  import opened Chunking
  import opened DfuProtocol
  import opened UploadShape
  import opened Text

  /** The firmware buffers by name, `"dat"` and `"bin"` (the source's dictionary). */
  type Files = map<string, seq<byte>>

  /** `dialog` is the progress dialog's `PercentComplete`, `None` while no dialog
      exists; `percents` records every value assigned to it, in order. */
  datatype Session = Session(
    runDat: bool,
    runBin: bool,
    dialog: Option<int>,
    log: seq<Write>,
    percents: seq<int>)

  // ---------------------------------------------------------------------------
  // Service detection

  const SecureDfuServicePrefix: string := "0000fe59"

  /** `id.ToLower().StartsWith("0000fe59")`. */
  predicate IsSecureDfuService(id: string)
    ensures IsSecureDfuService(id) <==>
      8 <= |id| && forall i :: 0 <= i < 8 ==> ToLowerAscii(id[i]) == SecureDfuServicePrefix[i]
  {
    StartsWith(ToLower(id), SecureDfuServicePrefix)
  }

  /** Some service of the device is the secure DFU service. */
  predicate HasSecureDfuService(ids: seq<string>)
    ensures HasSecureDfuService(ids) <==> exists id :: id in ids && IsSecureDfuService(id)
  {
    exists i :: 0 <= i < |ids| && IsSecureDfuService(ids[i])
  }

  // ---------------------------------------------------------------------------
  // Transitions

  /** Starting an upload on the selected device (`None`: no device selected), given
      the ids of its services: in DFU mode a fresh dialog, both flags cleared and
      one select-init command; otherwise nothing at all. */
  function Start(s: Session, services: Option<seq<string>>): (r: Session)
    ensures r.percents == s.percents
    ensures services.Some? && HasSecureDfuService(services.value) ==>
      !r.runDat && !r.runBin && r.dialog == Some(0) && r.log == s.log + [Write(ControlPoint, SelectInit)]
    ensures services.None? || !HasSecureDfuService(services.value) ==> r == s
  {
    if services.Some? && HasSecureDfuService(services.value) then
      s.(runDat := false, runBin := false, dialog := Some(0), log := s.log + [Write(ControlPoint, SelectInit)])
    else s
  }

  function Last(p: seq<int>): int
    requires p != []
  {
    p[|p| - 1]
  }

  /** The dialog after the values `ps` are assigned to it in turn: the last of
      them, or as it was when there is no dialog or nothing to assign. */
  function Reported(dialog: Option<int>, ps: seq<int>): (r: Option<int>)
    ensures r.None? <==> dialog.None?
    ensures ps == [] ==> r == dialog
    ensures dialog.Some? && ps != [] ==> r == Some(ps[|ps| - 1])
  {
    if dialog.None? || ps == [] then dialog else Some(Last(ps))
  }

  /** The record of assigned values after `ps`: nothing is assigned without a dialog. */
  function Recorded(dialog: Option<int>, percents: seq<int>, ps: seq<int>): (r: seq<int>)
    ensures percents <= r
    ensures dialog.Some? ==> |r| == |percents| + |ps| && forall i :: 0 <= i < |ps| ==> r[|percents| + i] == ps[i]
    ensures dialog.None? ==> r == percents
  {
    if dialog.None? then percents else percents + ps
  }

  /** Reporting `a` and then `b` is reporting `a + b`. */
  lemma ReportedAppend(dialog: Option<int>, percents: seq<int>, a: seq<int>, b: seq<int>)
    ensures Reported(Reported(dialog, a), b) == Reported(dialog, a + b)
    ensures Recorded(Reported(dialog, a), Recorded(dialog, percents, a), b) == Recorded(dialog, percents, a + b)
  {
    if b != [] {
      assert Last(a + b) == Last(b);
    }
    if dialog.Some? {
      assert (percents + a) + b == percents + (a + b);
    }
  }

  /** Handling one control-point notification `d`. A missing buffer stops the
      handler with what it has already done (the exception is swallowed). */
  function Step(s: Session, files: Files, d: seq<byte>): (t: Session)
    ensures s.log <= t.log && s.percents <= t.percents
    ensures (s.runDat ==> t.runDat) && (s.runBin ==> t.runBin)
    ensures s.dialog.None? ==> t.dialog.None? && t.percents == s.percents
    ensures t.percents == s.percents ==> t.dialog == s.dialog
    ensures t.percents != s.percents ==> t.dialog == Some(t.percents[|t.percents| - 1])
  {
    match Classify(d)
    case ObjectSelected =>
      if !s.runDat then
        s.(runDat := true, log := s.log + (if "dat" in files then InitWrites(files["dat"]) else []))
      else if "bin" in files then
        var bin := files["bin"];
        var ps := ImageProgress(bin);
        s.(log := s.log + ImageWrites(bin),
           dialog := Reported(s.dialog, ps),
           percents := Recorded(s.dialog, s.percents, ps))
      else s
    case Executed =>
      if !s.runBin then
        s.(runBin := true,
           log := s.log + [Write(ControlPoint, SelectData)],
           dialog := if s.dialog.Some? then Some(100) else None,
           percents := if s.dialog.Some? then s.percents + [100] else s.percents)
      else s
    case Malformed => s
    case Ignored => s
  }

  /** Handling a sequence of notifications in order. */
  function Run(s: Session, files: Files, ds: seq<seq<byte>>): (t: Session)
    ensures s.log <= t.log && s.percents <= t.percents
    ensures (s.runDat ==> t.runDat) && (s.runBin ==> t.runBin)
    ensures s.dialog.None? ==> t.dialog.None? && t.percents == s.percents
    ensures t.percents == s.percents ==> t.dialog == s.dialog
    ensures t.percents != s.percents ==> t.dialog == Some(t.percents[|t.percents| - 1])
    decreases |ds|
  {
    if ds == [] then s else Run(Step(s, files, ds[0]), files, ds[1..])
  }

  // ---------------------------------------------------------------------------
  // Properties

  /** The handler never clears a flag: `runDat` is set exactly when it was set
      before or some notification was `60 06 01`; `runBin` exactly when it was
      set before or some notification was exactly `60 04 01`. */
  lemma {:induction false} RunFlags(s: Session, files: Files, ds: seq<seq<byte>>)
    ensures Run(s, files, ds).runDat <==> s.runDat || exists i :: 0 <= i < |ds| && Classify(ds[i]) == ObjectSelected
    ensures Run(s, files, ds).runBin <==> s.runBin || exists i :: 0 <= i < |ds| && Classify(ds[i]) == Executed
    decreases |ds|
  {
    if ds != [] {
      RunFlags(Step(s, files, ds[0]), files, ds[1..]);
      forall i | 0 < i < |ds| ensures ds[i] == ds[1..][i - 1] { }
    }
  }

  /** Notifications that are too short or carry another header change nothing. */
  lemma {:induction false} IgnoredNotifications(s: Session, files: Files, ds: seq<seq<byte>>)
    requires forall i :: 0 <= i < |ds| ==> Classify(ds[i]) == Malformed || Classify(ds[i]) == Ignored
    ensures Run(s, files, ds) == s
    decreases |ds|
  {
    if ds != [] {
      IgnoredNotifications(Step(s, files, ds[0]), files, ds[1..]);
    }
  }

  /** The init object is created at most once per start: the handler adds one
      `[01 01]` exactly when `runDat` was clear, some notification was `60 06 01`
      and the init buffer is present. */
  lemma {:induction false} InitUploadRunsOnce(s: Session, files: Files, ds: seq<seq<byte>>)
    ensures Count(ControlFrames(Run(s, files, ds).log), CreateInit)
         == Count(ControlFrames(s.log), CreateInit)
            + (if !s.runDat && "dat" in files && exists i :: 0 <= i < |ds| && Classify(ds[i]) == ObjectSelected then 1 else 0)
    decreases |ds|
  {
    if ds != [] {
      var s' := Step(s, files, ds[0]);
      InitUploadRunsOnce(s', files, ds[1..]);
      StepCounts(s, files, ds[0]);
      forall i | 0 < i < |ds| ensures ds[i] == ds[1..][i - 1] { }
      if s.runDat || Classify(ds[0]) == ObjectSelected {
        assert s'.runDat;
      }
    }
  }

  /** The data object is selected (`[06 02]`) at most once per start: exactly when
      `runBin` was clear and some notification was exactly `60 04 01` (the
      execute reply that follows the init object). */
  lemma {:induction false} SelectDataRunsOnce(s: Session, files: Files, ds: seq<seq<byte>>)
    ensures Count(ControlFrames(Run(s, files, ds).log), SelectData)
         == Count(ControlFrames(s.log), SelectData)
            + (if !s.runBin && exists i :: 0 <= i < |ds| && Classify(ds[i]) == Executed then 1 else 0)
    decreases |ds|
  {
    if ds != [] {
      var s' := Step(s, files, ds[0]);
      SelectDataRunsOnce(s', files, ds[1..]);
      StepCounts(s, files, ds[0]);
      forall i | 0 < i < |ds| ensures ds[i] == ds[1..][i - 1] { }
      if s.runBin || Classify(ds[0]) == Executed {
        assert s'.runBin;
      }
    }
  }

  /** Once `runBin` is set, an exact `60 04 01` changes nothing. */
  lemma RepeatedExecuteIgnored(s: Session, files: Files, d: seq<byte>)
    requires s.runBin && Classify(d) == Executed
    ensures Step(s, files, d) == s
  {
  }

  /** After `[06 02]` has been written, any number of exact `60 04 01` replies
      change nothing. */
  lemma {:induction false} RepeatedExecutesIgnored(s: Session, files: Files, ds: seq<seq<byte>>)
    requires s.runBin
    requires forall i :: 0 <= i < |ds| ==> Classify(ds[i]) == Executed
    ensures Run(s, files, ds) == s
    decreases |ds|
  {
    if ds != [] {
      RepeatedExecuteIgnored(s, files, ds[0]);
      RepeatedExecutesIgnored(s, files, ds[1..]);
    }
  }

  /** The first `60 06 01` without a `"dat"` buffer sets `runDat` and writes
      nothing: the lookup throws before the create frame is written. */
  lemma MissingInitPacket(s: Session, files: Files, d: seq<byte>)
    requires !s.runDat && "dat" !in files && Classify(d) == ObjectSelected
    ensures Step(s, files, d) == s.(runDat := true)
  {
  }

  /** The first `60 06 01` with a `"dat"` buffer sets `runDat`, appends exactly
      the init upload, and leaves the dialog and the record alone. */
  lemma FirstSelectSendsInit(s: Session, files: Files, d: seq<byte>)
    requires !s.runDat && "dat" in files && Classify(d) == ObjectSelected
    ensures Step(s, files, d) == s.(runDat := true, log := s.log + InitWrites(files["dat"]))
  {
  }

  /** The first `60 04 01` sets `runBin`, appends `[06 02]`, and sets an existing
      dialog to 100. */
  lemma FirstExecuteSelectsData(s: Session, files: Files, d: seq<byte>)
    requires !s.runBin && Classify(d) == Executed
    ensures var t := Step(s, files, d);
      t.runDat == s.runDat && t.runBin
      && t.log == s.log + [Write(ControlPoint, SelectData)]
      && t.dialog == (if s.dialog.Some? then Some(100) else None)
      && t.percents == (if s.dialog.Some? then s.percents + [100] else s.percents)
  {
  }

  /** Once `runDat` is set, a `60 06 01` appends exactly the image upload,
      keeps both flags, and reports the image's progress values. */
  lemma LaterSelectSendsImage(s: Session, files: Files, d: seq<byte>)
    requires s.runDat && "bin" in files && Classify(d) == ObjectSelected
    ensures var t := Step(s, files, d);
      t.log == s.log + ImageWrites(files["bin"])
      && t.runDat == s.runDat && t.runBin == s.runBin
      && t.dialog == Reported(s.dialog, ImageProgress(files["bin"]))
      && t.percents == Recorded(s.dialog, s.percents, ImageProgress(files["bin"]))
  {
  }

  /** Once `runDat` is set, a `60 06 01` without a `"bin"` buffer changes
      nothing: the lookup throws before anything is written. */
  lemma MissingImage(s: Session, files: Files, d: seq<byte>)
    requires s.runDat && "bin" !in files && Classify(d) == ObjectSelected
    ensures Step(s, files, d) == s
  {
  }

  /** What one notification adds to the counts of `[01 01]` and `[06 02]`. */
  lemma StepCounts(s: Session, files: Files, d: seq<byte>)
    ensures Count(ControlFrames(Step(s, files, d).log), CreateInit)
         == Count(ControlFrames(s.log), CreateInit)
            + (if !s.runDat && "dat" in files && Classify(d) == ObjectSelected then 1 else 0)
    ensures Count(ControlFrames(Step(s, files, d).log), SelectData)
         == Count(ControlFrames(s.log), SelectData)
            + (if !s.runBin && Classify(d) == Executed then 1 else 0)
  {
    var added: seq<Write> :=
      match Classify(d)
      case ObjectSelected =>
        if !s.runDat then (if "dat" in files then InitWrites(files["dat"]) else [])
        else if "bin" in files then ImageWrites(files["bin"]) else []
      case Executed => if !s.runBin then [Write(ControlPoint, SelectData)] else []
      case _ => [];
    assert Step(s, files, d).log == s.log + added;
    ControlFramesAppend(s.log, added);
    CountAppend(ControlFrames(s.log), ControlFrames(added), CreateInit);
    CountAppend(ControlFrames(s.log), ControlFrames(added), SelectData);
    if "dat" in files && "bin" in files {
      UploadCommandCounts(files["dat"], files["bin"]);
    } else if "dat" in files {
      UploadCommandCounts(files["dat"], []);
    } else if "bin" in files {
      UploadCommandCounts([], files["bin"]);
    }
    var one := [Write(ControlPoint, SelectData)];
    assert ControlFrames(one) == [SelectData] + ControlFrames(one[1..]);
    assert one[1..] == [];
  }

  /** Every value the dialog shows stays within [0, 100] as long as the image is
      small enough for `offset * 100` to fit a C# `int`. */
  lemma {:induction false} RunKeepsPercentsInRange(s: Session, files: Files, ds: seq<seq<byte>>)
    requires "bin" in files ==> |files["bin"]| <= MaxImageLength
    requires forall i :: 0 <= i < |s.percents| ==> 0 <= s.percents[i] <= 100
    ensures forall i :: 0 <= i < |Run(s, files, ds).percents| ==> 0 <= Run(s, files, ds).percents[i] <= 100
    decreases |ds|
  {
    if ds != [] {
      var s' := Step(s, files, ds[0]);
      if "bin" in files {
        ImageProgressFacts(files["bin"]);
      }
      forall i | 0 <= i < |s'.percents| ensures 0 <= s'.percents[i] <= 100 {
        if i >= |s.percents| && Classify(ds[0]) == ObjectSelected {
          assert s'.percents[i] == ImageProgress(files["bin"])[i - |s.percents|];
        }
      }
      RunKeepsPercentsInRange(s', files, ds[1..]);
    }
  }

  /** Handling three notifications is handling each in turn. */
  lemma RunThree(s: Session, files: Files, a: seq<byte>, b: seq<byte>, c: seq<byte>)
    ensures Run(s, files, [a, b, c]) == Step(Step(Step(s, files, a), files, b), files, c)
  {
    var ds := [a, b, c];
    var none: seq<seq<byte>> := [];
    assert ds[1..] == [b, c] && ds[1..][1..] == [c] && ds[1..][1..][1..] == none;
    var t := Step(Step(Step(s, files, a), files, b), files, c);
    assert Run(Step(Step(s, files, a), files, b), files, [c]) == Run(t, files, none) == t;
  }

  /** An upload in the order the peer answers: after a successful start, `60 06 01`
      (init object selected) sends the init object, `60 04 01` (init object
      executed) selects the data object with `[06 02]` and sets the dialog to 100,
      and the next `60 06 01` (data object selected) sends the image. The dialog
      therefore ends at the image's last percentage, below 100 for a non-empty
      image within the overflow bound. */
  lemma ProtocolOrderUpload(s: Session, services: seq<string>, dat: seq<byte>, bin: seq<byte>)
    requires HasSecureDfuService(services)
    ensures var ready := [0x60, 0x06, 0x01];
      var done := [0x60, 0x04, 0x01];
      var t := Run(Start(s, Some(services)), map["dat" := dat, "bin" := bin], [ready, done, ready]);
      t.runDat && t.runBin
      && t.log == s.log + [Write(ControlPoint, SelectInit)] + InitWrites(dat)
                  + [Write(ControlPoint, SelectData)] + ImageWrites(bin)
      && t.percents == s.percents + [100] + ImageProgress(bin)
      && t.dialog == Reported(Some(100), ImageProgress(bin))
      && (bin != [] && |bin| <= MaxImageLength ==> t.dialog.Some? && 0 <= t.dialog.value <= 99)
  {
    var ready: seq<byte> := [0x60, 0x06, 0x01];
    var done: seq<byte> := [0x60, 0x04, 0x01];
    var files := map["dat" := dat, "bin" := bin];
    var s0 := Start(s, Some(services));
    assert Classify(ready) == ObjectSelected && Classify(done) == Executed;
    RunThree(s0, files, ready, done, ready);
    var s1 := Step(s0, files, ready);
    FirstSelectSendsInit(s0, files, ready);
    var s2 := Step(s1, files, done);
    FirstExecuteSelectsData(s1, files, done);
    LaterSelectSendsImage(s2, files, ready);
    if bin != [] && |bin| <= MaxImageLength {
      ImageProgressFacts(bin);
      var ps := ImageProgress(bin);
      assert Last(ps) == ps[|ps| - 1];
    }
  }

  /** The handler does not check the order of the replies: a second `60 06 01`
      before `60 04 01` also sends the init object and then the image, and the
      later `60 04 01` writes `[06 02]` and leaves the dialog at 100. */
  lemma SecondSelectBeforeExecute(s: Session, services: seq<string>, dat: seq<byte>, bin: seq<byte>)
    requires HasSecureDfuService(services)
    ensures var ready := [0x60, 0x06, 0x01];
      var done := [0x60, 0x04, 0x01];
      var t := Run(Start(s, Some(services)), map["dat" := dat, "bin" := bin], [ready, ready, done]);
      t.runDat && t.runBin && t.dialog == Some(100)
      && t.log == s.log + [Write(ControlPoint, SelectInit)] + InitWrites(dat) + ImageWrites(bin)
                  + [Write(ControlPoint, SelectData)]
      && t.percents == s.percents + ImageProgress(bin) + [100]
  {
    var ready: seq<byte> := [0x60, 0x06, 0x01];
    var done: seq<byte> := [0x60, 0x04, 0x01];
    var files := map["dat" := dat, "bin" := bin];
    var s0 := Start(s, Some(services));
    assert Classify(ready) == ObjectSelected && Classify(done) == Executed;
    RunThree(s0, files, ready, ready, done);
    var s1 := Step(s0, files, ready);
    FirstSelectSendsInit(s0, files, ready);
    var s2 := Step(s1, files, ready);
    LaterSelectSendsImage(s1, files, ready);
    FirstExecuteSelectsData(s2, files, done);
  }
}
