/** The DFU part of the main page view model: the firmware dictionary, the two
    one-shot flags, the progress dialog, the list of discovered devices, and the
    log of characteristic writes that the Bluetooth stack would carry out. */
module MainPage {
  import opened Wrappers
  import opened Chunking
  import opened DfuProtocol
  import opened Text
  import opened DfuSession
  import opened Firmware

  /** A discovered peripheral; `name` is `None` when the device has no name. */
  datatype Device = Device(id: int, name: Option<string>)

  predicate NullOrEmpty(name: Option<string>) {
    name.None? || name.value == ""
  }

  predicate Distinct(ds: seq<Device>) {
    forall i, j :: 0 <= i < j < |ds| ==> ds[i] != ds[j]
  }

  /** The scan over the device's services for the secure DFU service. */
  method FindSecureDfuService(ids: seq<string>) returns (onDfuMode: bool)
    ensures onDfuMode <==> HasSecureDfuService(ids)
    ensures onDfuMode <==> exists i :: 0 <= i < |ids| && StartsWith(ToLower(ids[i]), "0000fe59")
  {
    onDfuMode := false;
    var i := 0;
    while i < |ids|
      invariant 0 <= i <= |ids|
      invariant forall j :: 0 <= j < i ==> !IsSecureDfuService(ids[j])
    {
      if IsSecureDfuService(ids[i]) {
        onDfuMode := true;
        break;
      }
      i := i + 1;
    }
  }

  class MainPageViewModel {
    /** The firmware buffers by name (`byteArrayDic`). */
    var firmware: Files
    var runDat: bool
    var runBin: bool
    /** The progress dialog's `PercentComplete`; `None` while there is no dialog. */
    var dialog: Option<int>
    /** Every characteristic write, in order. */
    var log: seq<Write>
    /** Every value assigned to the dialog's `PercentComplete`, in order. */
    ghost var percents: seq<int>
    var foundDevices: seq<Device>

    ghost predicate Valid()
      reads this
    {
      Distinct(foundDevices)
    }

    ghost function State(): Session
      reads this
    {
      Session(runDat, runBin, dialog, log, percents)
    }

    constructor ()
      ensures Valid()
      ensures firmware == map[] && foundDevices == []
      ensures State() == Session(false, false, None, [], [])
    {
      firmware := map[];
      runDat, runBin := false, false;
      dialog := None;
      log, percents := [], [];
      foundDevices := [];
    }

    /** A device found by the scan is listed once, and only when it has a name. */
    method DiscoverPeripheral(d: Device)
      requires Valid()
      modifies this`foundDevices
      ensures Valid()
      ensures foundDevices == if !NullOrEmpty(d.name) && d !in old(foundDevices)
                              then old(foundDevices) + [d] else old(foundDevices)
    {
      if !NullOrEmpty(d.name) {
        if d !in foundDevices {
          foundDevices := foundDevices + [d];
        }
      }
    }

    /** The firmware picker: `None` when the user cancels. */
    method PickFiles(picked: Option<PickedFile>)
      modifies this`firmware
      ensures firmware == if picked.None? then old(firmware) else FirmwareFiles(picked.value)
    {
      if picked.None? {
        return;
      }
      var file := picked.value;
      if EndsWith(file.fileName, ".bin") {
        firmware := map["bin" := file.data];
      } else if file.entries.None? {
        firmware := map[];
      } else {
        firmware := ReadArchive(file.entries.value);
      }
    }

    /** Start the upload on the selected device (`None`: no device selected),
        given the ids of its services. */
    method StartDfu(services: Option<seq<string>>)
      modifies this`runDat, this`runBin, this`dialog, this`log
      ensures State() == Start(old(State()), services)
    {
      if services.None? {
        return;
      }
      var onDfuMode := FindSecureDfuService(services.value);
      if !onDfuMode {
        return;
      }
      dialog := Some(0);
      runDat := false;
      runBin := false;
      log := log + [Write(ControlPoint, SelectInit)];
    }

    /** The control-point notification handler. */
    method HandleNotify(resData: seq<byte>)
      modifies this`runDat, this`runBin, this`dialog, this`log, this`percents
      ensures State() == Step(old(State()), firmware, resData)
    {
      if |resData| < 3 {
        // Array.Copy throws; the exception is swallowed
        return;
      }
      var resHead := resData[..3];
      if resHead == [0x60, 0x06, 0x01] {
        if !runDat {
          runDat := true;
          if "dat" !in firmware {
            // KeyNotFoundException, swallowed
            return;
          }
          SendInit(firmware["dat"]);
        } else {
          if "bin" !in firmware {
            return;
          }
          SendImage(firmware["bin"]);
        }
      } else if resHead == [0x60, 0x04, 0x01] && |resData| == 3 {
        if !runBin {
          runBin := true;
          log := log + [Write(ControlPoint, SelectData)];
          SetProgress(100);
        }
      }
    }

    /** `if (progressDialog != null) progressDialog.PercentComplete = v;`: an open
        dialog shows `v`, and the assignment is recorded. */
    method SetProgress(v: int)
      modifies this`dialog, this`percents
      ensures dialog == Reported(old(dialog), [v])
      ensures percents == Recorded(old(dialog), old(percents), [v])
    {
      if dialog.Some? {
        dialog := Some(v);
        percents := percents + [v];
      }
    }

    /** The init branch: create, the init bytes in 20-byte link chunks, checksum, execute. */
    method SendInit(dat: seq<byte>)
      modifies this`log
      ensures log == old(log) + InitWrites(dat)
    {
      var imageSizeBuffer := CreateInit;
      // `ToList().AddRange(...)` extends a copy; the buffer written stays two bytes
      ghost var extended := imageSizeBuffer + LittleEndian32(|dat|);
      log := log + [Write(ControlPoint, imageSizeBuffer)];
      ghost var start := log;
      var offset := 0;
      while offset < |dat|
        invariant offset <= |dat|
        invariant log + PacketWrites(Chunks(dat, LinkChunkSize, offset)) == start + LinkWrites(dat)
        decreases |dat| - offset
      {
        var packetLength := Min(|dat| - offset, LinkChunkSize);
        var dataPacket := dat[offset..offset + packetLength];
        ghost var before := log;
        log := log + [Write(Packet, dataPacket)];
        LinkStep(before, dat, offset, packetLength);
        offset := offset + packetLength;
      }
      assert log == old(log) + [Write(ControlPoint, CreateInit)] + LinkWrites(dat);
      log := log + [Write(ControlPoint, CalculateChecksum)];
      log := log + [Write(ControlPoint, Execute)];
    }

    /** One image object: the create frame (fixed-size form for a full object,
        `[01 02]` otherwise), the object's bytes, then checksum and execute. */
    method SendObject(dataPacket: seq<byte>, offset: nat, totalLength: nat)
      requires 0 < totalLength
      modifies this`log, this`dialog, this`percents
      ensures log == old(log) + ObjectWrites(dataPacket)
      ensures var ps := ObjectProgress(dataPacket, offset, totalLength);
        dialog == Reported(old(dialog), ps) && percents == Recorded(old(dialog), old(percents), ps)
    {
      var packetLength := |dataPacket|;
      if packetLength == ObjectSize {
        log := log + [Write(ControlPoint, CreateFullData)];
      } else {
        var imageSizeBuffer := CreateShortData;
        // `ToList().AddRange(...)` extends a copy; the buffer written stays two bytes
        ghost var extended := imageSizeBuffer + LittleEndian32(packetLength);
        log := log + [Write(ControlPoint, imageSizeBuffer)];
      }
      SendObjectData(dataPacket, offset, totalLength);
      log := log + [Write(ControlPoint, CalculateChecksum)];
      log := log + [Write(ControlPoint, Execute)];
    }

    /** An image object's bytes in 20-byte link chunks, reporting the percentage
        of `offset` (the object's start) after every chunk. */
    method SendObjectData(dataPacket: seq<byte>, offset: nat, totalLength: nat)
      requires 0 < totalLength
      modifies this`log, this`dialog, this`percents
      ensures log == old(log) + PacketWrites(Chunks(dataPacket, LinkChunkSize, 0))
      ensures var ps := ObjectProgress(dataPacket, offset, totalLength);
        dialog == Reported(old(dialog), ps) && percents == Recorded(old(dialog), old(percents), ps)
    {
      ghost var p := Percent(offset, totalLength);
      ghost var sent: nat := 0;
      var offsetPackage := 0;
      ObjectDataSentNothing(dataPacket, p, log, dialog, percents);
      while offsetPackage < |dataPacket|
        invariant ObjectDataSent(dataPacket, offsetPackage, sent, p, old(log), old(dialog), old(percents), log, dialog, percents)
        decreases |dataPacket| - offsetPackage
      {
        var packetSendLength := Min(|dataPacket| - offsetPackage, LinkChunkSize);
        var sendDataPacket := dataPacket[offsetPackage..offsetPackage + packetSendLength];
        ghost var (logBefore, dialogBefore, percentsBefore) := (log, dialog, percents);
        ObjectDataStep(dataPacket, offsetPackage, packetSendLength, sent, p,
          old(log), old(dialog), old(percents), logBefore, dialogBefore, percentsBefore);
        log := log + [Write(Packet, sendDataPacket)];
        var dfuProgress := Percent(offset, totalLength);
        SetProgress(dfuProgress);
        offsetPackage := offsetPackage + packetSendLength;
        sent := sent + 1;
      }
      ObjectDataSentAll(dataPacket, sent, offset, totalLength, old(log), old(dialog), old(percents), log, dialog, percents);
    }

    /** The image branch: the image in objects of at most 4096 bytes, one after the other. */
    method SendImage(bin: seq<byte>)
      modifies this`log, this`dialog, this`percents
      ensures log == old(log) + ImageWrites(bin)
      ensures var ps := ImageProgress(bin);
        dialog == Reported(old(dialog), ps) && percents == Recorded(old(dialog), old(percents), ps)
    {
      ghost var done: seq<int> := [];
      var offset := 0;
      var totalLength := |bin|;
      ImageSentNothing(bin, log, dialog, percents);
      while offset < totalLength
        invariant totalLength == |bin|
        invariant ImageSent(bin, offset, done, old(log), old(dialog), old(percents), log, dialog, percents)
        decreases totalLength - offset
      {
        var packetLength := Min(totalLength - offset, ObjectSize);
        var dataPacket := bin[offset..offset + packetLength];
        ObjectStep(bin, offset, packetLength, dataPacket, totalLength, done,
          old(log), old(dialog), old(percents), log, dialog, percents);
        SendObject(dataPacket, offset, totalLength);
        done := done + ObjectProgress(dataPacket, offset, totalLength);
        offset := offset + packetLength;
      }
      ImageSentAll(bin, done, old(log), old(dialog), old(percents), log, dialog, percents);
    }
  }

  /** One turn of the link-chunk loop: the chunk at `from`, then the rest. */
  lemma LinkStep(before: seq<Write>, buf: seq<byte>, from: nat, n: nat)
    requires from < |buf| && n == Min(|buf| - from, LinkChunkSize)
    ensures (before + [Write(Packet, buf[from..from + n])]) + PacketWrites(Chunks(buf, LinkChunkSize, from + n))
      == before + PacketWrites(Chunks(buf, LinkChunkSize, from))
    ensures |Chunks(buf, LinkChunkSize, from)| == |Chunks(buf, LinkChunkSize, from + n)| + 1
  {
    var rest := Chunks(buf, LinkChunkSize, from + n);
    assert ([buf[from..from + n]] + rest)[1..] == rest;
  }

  /** The state of the image loop once the objects before `offset` are sent:
      `done` holds the progress values reported so far, and what is still to be
      written and reported is exactly what the objects from `offset` on produce. */
  ghost predicate ImageSent(bin: seq<byte>, offset: nat, done: seq<int>,
    log0: seq<Write>, dialog0: Option<int>, percents0: seq<int>,
    log: seq<Write>, dialog: Option<int>, percents: seq<int>)
  {
    offset <= |bin|
    && log + ObjectsWrites(Chunks(bin, ObjectSize, offset)) == log0 + ImageWrites(bin)
    && done + ProgressFrom(bin, offset) == ImageProgress(bin)
    && dialog == Reported(dialog0, done) && percents == Recorded(dialog0, percents0, done)
  }

  /** Before the image loop nothing is sent. */
  lemma ImageSentNothing(bin: seq<byte>, log: seq<Write>, dialog: Option<int>, percents: seq<int>)
    ensures ImageSent(bin, 0, [], log, dialog, percents, log, dialog, percents)
  {
    assert [] + ProgressFrom(bin, 0) == ImageProgress(bin);
  }

  /** One turn of the image loop: the object `obj` at `from`, then the rest. */
  lemma ObjectStep(bin: seq<byte>, from: nat, n: nat, obj: seq<byte>, total: nat, done: seq<int>,
    log0: seq<Write>, dialog0: Option<int>, percents0: seq<int>,
    log: seq<Write>, dialog: Option<int>, percents: seq<int>)
    requires from < |bin| && n == Min(|bin| - from, ObjectSize)
    requires obj == bin[from..from + n] && total == |bin|
    requires ImageSent(bin, from, done, log0, dialog0, percents0, log, dialog, percents)
    ensures var ps := ObjectProgress(obj, from, total);
      ImageSent(bin, from + n, done + ps, log0, dialog0, percents0,
        log + ObjectWrites(obj), Reported(dialog, ps), Recorded(dialog, percents, ps))
  {
    ObjectWritesStep(log, bin, from, n, obj);
    ObjectProgressStep(done, bin, from, n, obj, total);
    ReportedAppend(dialog0, percents0, done, ObjectProgress(obj, from, total));
  }

  lemma ObjectWritesStep(log: seq<Write>, bin: seq<byte>, from: nat, n: nat, obj: seq<byte>)
    requires from < |bin| && n == Min(|bin| - from, ObjectSize) && obj == bin[from..from + n]
    ensures (log + ObjectWrites(obj)) + ObjectsWrites(Chunks(bin, ObjectSize, from + n))
      == log + ObjectsWrites(Chunks(bin, ObjectSize, from))
  {
    var rest := Chunks(bin, ObjectSize, from + n);
    assert ([obj] + rest)[1..] == rest;
  }

  lemma ObjectProgressStep(done: seq<int>, bin: seq<byte>, from: nat, n: nat, obj: seq<byte>, total: nat)
    requires from < |bin| && n == Min(|bin| - from, ObjectSize) && obj == bin[from..from + n] && total == |bin|
    ensures (done + ObjectProgress(obj, from, total)) + ProgressFrom(bin, from + n)
      == done + ProgressFrom(bin, from)
  {
    var ps := ObjectProgress(obj, from, total);
    assert (done + ps) + ProgressFrom(bin, from + n) == done + (ps + ProgressFrom(bin, from + n));
  }

  /** After the image loop every object is sent. */
  lemma ImageSentAll(bin: seq<byte>, done: seq<int>,
    log0: seq<Write>, dialog0: Option<int>, percents0: seq<int>,
    log: seq<Write>, dialog: Option<int>, percents: seq<int>)
    requires ImageSent(bin, |bin|, done, log0, dialog0, percents0, log, dialog, percents)
    ensures log == log0 + ImageWrites(bin) && done == ImageProgress(bin)
    ensures dialog == Reported(dialog0, ImageProgress(bin)) && percents == Recorded(dialog0, percents0, ImageProgress(bin))
  {
    assert ObjectsWrites(Chunks(bin, ObjectSize, |bin|)) == [];
    assert log + [] == log && done + [] == done;
  }

  lemma RepeatSnoc(v: int, n: nat)
    ensures Repeat(v, n + 1) == Repeat(v, n) + [v]
  {
  }

  /** The state of the link-chunk loop of an image object once the bytes before
      `at` are sent: `sent` chunks written, each followed by the value `p`. */
  ghost predicate ObjectDataSent(buf: seq<byte>, at: nat, sent: nat, p: int,
    log0: seq<Write>, dialog0: Option<int>, percents0: seq<int>,
    log: seq<Write>, dialog: Option<int>, percents: seq<int>)
  {
    at <= |buf|
    && log + PacketWrites(Chunks(buf, LinkChunkSize, at)) == log0 + PacketWrites(Chunks(buf, LinkChunkSize, 0))
    && sent + |Chunks(buf, LinkChunkSize, at)| == |Chunks(buf, LinkChunkSize, 0)|
    && dialog == Reported(dialog0, Repeat(p, sent)) && percents == Recorded(dialog0, percents0, Repeat(p, sent))
  }

  /** Before the link-chunk loop nothing is sent. */
  lemma ObjectDataSentNothing(buf: seq<byte>, p: int, log: seq<Write>, dialog: Option<int>, percents: seq<int>)
    ensures ObjectDataSent(buf, 0, 0, p, log, dialog, percents, log, dialog, percents)
  {
  }

  /** One turn of the link-chunk loop: the chunk at `at`, then one update to `p`. */
  lemma ObjectDataStep(buf: seq<byte>, at: nat, n: nat, sent: nat, p: int,
    log0: seq<Write>, dialog0: Option<int>, percents0: seq<int>,
    log: seq<Write>, dialog: Option<int>, percents: seq<int>)
    requires at < |buf| && n == Min(|buf| - at, LinkChunkSize)
    requires ObjectDataSent(buf, at, sent, p, log0, dialog0, percents0, log, dialog, percents)
    ensures ObjectDataSent(buf, at + n, sent + 1, p, log0, dialog0, percents0,
      log + [Write(Packet, buf[at..at + n])], Reported(dialog, [p]), Recorded(dialog, percents, [p]))
  {
    LinkStep(log, buf, at, n);
    RepeatSnoc(p, sent);
    ReportedAppend(dialog0, percents0, Repeat(p, sent), [p]);
  }

  /** After the link-chunk loop every chunk is sent and reported. */
  lemma ObjectDataSentAll(buf: seq<byte>, sent: nat, offset: nat, total: nat,
    log0: seq<Write>, dialog0: Option<int>, percents0: seq<int>,
    log: seq<Write>, dialog: Option<int>, percents: seq<int>)
    requires 0 < total
    requires ObjectDataSent(buf, |buf|, sent, Percent(offset, total), log0, dialog0, percents0, log, dialog, percents)
    ensures log == log0 + PacketWrites(Chunks(buf, LinkChunkSize, 0))
    ensures var ps := ObjectProgress(buf, offset, total);
      dialog == Reported(dialog0, ps) && percents == Recorded(dialog0, percents0, ps)
  {
    assert PacketWrites(Chunks(buf, LinkChunkSize, |buf|)) == [];
    assert log + [] == log;
  }

}
