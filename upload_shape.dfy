/** What the init and image uploads put on the two characteristics: the packet
    writes rebuild the buffer, chunks respect their bounds, the control-point
    commands come in a fixed order, and the progress values stay in range. */
module UploadShape {
  import opened Chunking
  import opened DfuProtocol

  // ---------------------------------------------------------------------------
  // The log views distribute over concatenation

  lemma {:induction false} ControlFramesAppend(a: seq<Write>, b: seq<Write>)
    ensures ControlFrames(a + b) == ControlFrames(a) + ControlFrames(b)
  {
    if a != [] {
      assert (a + b)[1..] == a[1..] + b;
      ControlFramesAppend(a[1..], b);
    } else {
      assert a + b == b;
    }
  }

  lemma {:induction false} PacketPayloadsAppend(a: seq<Write>, b: seq<Write>)
    ensures PacketPayloads(a + b) == PacketPayloads(a) + PacketPayloads(b)
  {
    if a != [] {
      assert (a + b)[1..] == a[1..] + b;
      PacketPayloadsAppend(a[1..], b);
    } else {
      assert a + b == b;
    }
  }

  lemma {:induction false} CountAppend(a: seq<seq<byte>>, b: seq<seq<byte>>, f: seq<byte>)
    ensures Count(a + b, f) == Count(a, f) + Count(b, f)
  {
    if a != [] {
      assert (a + b)[1..] == a[1..] + b;
      CountAppend(a[1..], b, f);
    } else {
      assert a + b == b;
    }
  }

  /** Link chunk writes go only to the packet characteristic, one per chunk. */
  lemma {:induction false} PacketWritesViews(cs: seq<seq<byte>>)
    ensures ControlFrames(PacketWrites(cs)) == []
    ensures PacketPayloads(PacketWrites(cs)) == cs
  {
    if cs != [] {
      PacketWritesViews(cs[1..]);
      ControlFramesAppend([Write(Packet, cs[0])], PacketWrites(cs[1..]));
      PacketPayloadsAppend([Write(Packet, cs[0])], PacketWrites(cs[1..]));
    }
  }

  /** The control-point and packet views of `[command] + link writes + [03, 04]`. */
  lemma ObjectViews(create: seq<byte>, buf: seq<byte>)
    ensures var ws := [Write(ControlPoint, create)] + LinkWrites(buf)
                      + [Write(ControlPoint, CalculateChecksum), Write(ControlPoint, Execute)];
      ControlFrames(ws) == [create, CalculateChecksum, Execute]
      && PacketPayloads(ws) == Chunks(buf, LinkChunkSize, 0)
  {
    var head := [Write(ControlPoint, create)];
    var tail := [Write(ControlPoint, CalculateChecksum), Write(ControlPoint, Execute)];
    assert head[1..] == [] && tail[1..][1..] == [];
    assert ControlFrames(head) == [create] && PacketPayloads(head) == [];
    assert ControlFrames(tail) == [CalculateChecksum, Execute] && PacketPayloads(tail) == [];
    PacketWritesViews(Chunks(buf, LinkChunkSize, 0));
    ControlFramesAppend(head + LinkWrites(buf), tail);
    ControlFramesAppend(head, LinkWrites(buf));
    PacketPayloadsAppend(head + LinkWrites(buf), tail);
    PacketPayloadsAppend(head, LinkWrites(buf));
  }

  // ---------------------------------------------------------------------------
  // The init upload

  /** The init upload: control point gets `[01 01]`, `[03]`, `[04]` in that
      order; the packet writes rebuild `dat` in chunks of at most 20 bytes, all
      but the last exactly 20, and there are ceil(|dat| / 20) of them. */
  lemma InitUploadShape(dat: seq<byte>)
    ensures ControlFrames(InitWrites(dat)) == [CreateInit, CalculateChecksum, Execute]
    ensures PacketPayloads(InitWrites(dat)) == Chunks(dat, LinkChunkSize, 0)
    ensures Flatten(PacketPayloads(InitWrites(dat))) == dat
    ensures var ps := PacketPayloads(InitWrites(dat));
      (forall i :: 0 <= i < |ps| ==> 0 < |ps[i]| <= LinkChunkSize)
      && (forall i :: 0 <= i < |ps| - 1 ==> |ps[i]| == LinkChunkSize)
      && |ps| == (|dat| + LinkChunkSize - 1) / LinkChunkSize
  {
    ObjectViews(CreateInit, dat);
    ChunksRebuild(dat, LinkChunkSize, 0);
    ChunksBounded(dat, LinkChunkSize, 0);
    ChunksCount(dat, LinkChunkSize, 0);
  }

  // ---------------------------------------------------------------------------
  // The image upload

  /** The control-point commands of a run of objects: per object, create, checksum, execute. */
  function ObjectCommands(objs: seq<seq<byte>>): (r: seq<seq<byte>>)
    ensures |r| == 3 * |objs|
  {
    if objs == [] then []
    else [CreateDataFrame(|objs[0]|), CalculateChecksum, Execute] + ObjectCommands(objs[1..])
  }

  /** The link chunks of a run of objects, object after object. */
  function ObjectLinkChunks(objs: seq<seq<byte>>): seq<seq<byte>> {
    if objs == [] then [] else Chunks(objs[0], LinkChunkSize, 0) + ObjectLinkChunks(objs[1..])
  }

  lemma {:induction false} ObjectsWritesViews(objs: seq<seq<byte>>)
    ensures ControlFrames(ObjectsWrites(objs)) == ObjectCommands(objs)
    ensures PacketPayloads(ObjectsWrites(objs)) == ObjectLinkChunks(objs)
  {
    if objs != [] {
      ObjectsWritesViews(objs[1..]);
      ObjectViews(CreateDataFrame(|objs[0]|), objs[0]);
      ControlFramesAppend(ObjectWrites(objs[0]), ObjectsWrites(objs[1..]));
      PacketPayloadsAppend(ObjectWrites(objs[0]), ObjectsWrites(objs[1..]));
    }
  }

  /** Splitting each object into link chunks loses and reorders nothing. */
  lemma {:induction false} ObjectLinkChunksRebuild(objs: seq<seq<byte>>)
    ensures Flatten(ObjectLinkChunks(objs)) == Flatten(objs)
  {
    if objs != [] {
      ObjectLinkChunksRebuild(objs[1..]);
      FlattenAppend(Chunks(objs[0], LinkChunkSize, 0), ObjectLinkChunks(objs[1..]));
      ChunksRebuild(objs[0], LinkChunkSize, 0);
    }
  }

  /** Every link chunk of every object is non-empty and at most 20 bytes. */
  lemma {:induction false} ObjectLinkChunksBounded(objs: seq<seq<byte>>)
    ensures forall i :: 0 <= i < |ObjectLinkChunks(objs)| ==> 0 < |ObjectLinkChunks(objs)[i]| <= LinkChunkSize
  {
    if objs != [] {
      ObjectLinkChunksBounded(objs[1..]);
      ChunksBounded(objs[0], LinkChunkSize, 0);
      var a := Chunks(objs[0], LinkChunkSize, 0);
      var b := ObjectLinkChunks(objs[1..]);
      assert ObjectLinkChunks(objs) == a + b;
      forall i | 0 <= i < |a + b| ensures 0 < |(a + b)[i]| <= LinkChunkSize {
        if i >= |a| {
          assert (a + b)[i] == b[i - |a|];
        }
      }
    }
  }

  /** The image upload: the objects are consecutive slices of at most 4096 bytes,
      all but the last exactly 4096, ceil(|bin| / 4096) of them; each gets create,
      checksum and execute on the control point; the packet writes are at most 20
      bytes each and rebuild `bin`. */
  lemma ImageUploadShape(bin: seq<byte>)
    ensures Flatten(Objects(bin)) == bin
    ensures forall i :: 0 <= i < |Objects(bin)| ==> 0 < |Objects(bin)[i]| <= ObjectSize
    ensures forall i :: 0 <= i < |Objects(bin)| - 1 ==> |Objects(bin)[i]| == ObjectSize
    ensures |Objects(bin)| == (|bin| + ObjectSize - 1) / ObjectSize
    ensures ControlFrames(ImageWrites(bin)) == ObjectCommands(Objects(bin))
    ensures |ControlFrames(ImageWrites(bin))| == 3 * |Objects(bin)|
    ensures Flatten(PacketPayloads(ImageWrites(bin))) == bin
    ensures forall i :: 0 <= i < |PacketPayloads(ImageWrites(bin))| ==>
              0 < |PacketPayloads(ImageWrites(bin))[i]| <= LinkChunkSize
    ensures bin == [] <==> ImageWrites(bin) == []
  {
    ChunksRebuild(bin, ObjectSize, 0);
    ChunksBounded(bin, ObjectSize, 0);
    ChunksCount(bin, ObjectSize, 0);
    ObjectsWritesViews(Objects(bin));
    ObjectLinkChunksRebuild(Objects(bin));
    ObjectLinkChunksBounded(Objects(bin));
    if bin != [] {
      assert |ControlFrames(ImageWrites(bin))| > 0;
    }
  }

  /** The `i`-th triple of control-point commands belongs to the `i`-th object:
      a full 4096-byte object is created with `[01 02 00 10 00 00]`, any other with `[01 02]`. */
  lemma {:induction false} ObjectCommandsAt(objs: seq<seq<byte>>, i: nat)
    requires i < |objs|
    ensures ObjectCommands(objs)[3 * i] == CreateDataFrame(|objs[i]|)
    ensures ObjectCommands(objs)[3 * i + 1] == CalculateChecksum
    ensures ObjectCommands(objs)[3 * i + 2] == Execute
    ensures ObjectCommands(objs)[3 * i] == (if |objs[i]| == ObjectSize then CreateFullData else CreateShortData)
  {
    if i > 0 {
      ObjectCommandsAt(objs[1..], i - 1);
      var head := [CreateDataFrame(|objs[0]|), CalculateChecksum, Execute];
      assert ObjectCommands(objs) == head + ObjectCommands(objs[1..]);
    }
  }

  /** An image of 5000 bytes goes as a full object of 4096 bytes and a short one of 904. */
  lemma TwoObjectImage(bin: seq<byte>)
    requires |bin| == 5000
    ensures Objects(bin) == [bin[..4096], bin[4096..]]
    ensures ControlFrames(ImageWrites(bin))
         == [CreateFullData, CalculateChecksum, Execute, CreateShortData, CalculateChecksum, Execute]
  {
    var o1, o2 := bin[..4096], bin[4096..];
    assert Chunks(bin, ObjectSize, 4096) == [bin[4096..5000]] + Chunks(bin, ObjectSize, 5000);
    assert Objects(bin) == [bin[0..4096]] + Chunks(bin, ObjectSize, 4096);
    assert Chunks(bin, ObjectSize, 5000) == [];
    assert bin[0..4096] == o1 && bin[4096..5000] == o2;
    assert Objects(bin) == [o1, o2];
    ObjectsWritesViews([o1, o2]);
    var none: seq<seq<byte>> := [];
    assert [o1, o2][1..] == [o2] && [o2][1..] == none;
    assert ObjectCommands([o2]) == [CreateDataFrame(904), CalculateChecksum, Execute];
    assert ObjectCommands([o1, o2]) == [CreateDataFrame(4096), CalculateChecksum, Execute] + ObjectCommands([o2]);
  }

  /** An image of exactly 4096 bytes is one full object sent in 205 link chunks. */
  lemma OneFullObjectImage(bin: seq<byte>)
    requires |bin| == 4096
    ensures Objects(bin) == [bin]
    ensures |PacketPayloads(ImageWrites(bin))| == 205
    ensures ControlFrames(ImageWrites(bin)) == [CreateFullData, CalculateChecksum, Execute]
  {
    assert Objects(bin) == [bin[0..4096]] + Chunks(bin, ObjectSize, 4096);
    assert bin[0..4096] == bin;
    ObjectsWritesViews([bin]);
    assert ObjectLinkChunks([bin]) == Chunks(bin, LinkChunkSize, 0) + ObjectLinkChunks([]);
    ChunksCount(bin, LinkChunkSize, 0);
  }

  // ---------------------------------------------------------------------------
  // Command counts used by the one-shot guard lemmas

  lemma CountTriple(a: seq<byte>, b: seq<byte>, c: seq<byte>, f: seq<byte>)
    ensures Count([a, b, c], f) == (if a == f then 1 else 0) + (if b == f then 1 else 0) + (if c == f then 1 else 0)
  {
    var none: seq<seq<byte>> := [];
    assert [a, b, c][1..] == [b, c] && [b, c][1..] == [c] && [c][1..] == none;
    assert Count([c], f) == (if c == f then 1 else 0) + Count(none, f);
    assert Count([b, c], f) == (if b == f then 1 else 0) + Count([c], f);
  }

  lemma {:induction false} ObjectCommandsCount(objs: seq<seq<byte>>)
    ensures Count(ObjectCommands(objs), CreateInit) == 0
    ensures Count(ObjectCommands(objs), SelectData) == 0
  {
    if objs != [] {
      ObjectCommandsCount(objs[1..]);
      var head := [CreateDataFrame(|objs[0]|), CalculateChecksum, Execute];
      assert head[0][1] == 0x02;
      CountTriple(head[0], CalculateChecksum, Execute, CreateInit);
      CountTriple(head[0], CalculateChecksum, Execute, SelectData);
      CountAppend(head, ObjectCommands(objs[1..]), CreateInit);
      CountAppend(head, ObjectCommands(objs[1..]), SelectData);
    }
  }

  /** An init upload creates exactly one init object and never selects the data object;
      an image upload does neither. */
  lemma UploadCommandCounts(dat: seq<byte>, bin: seq<byte>)
    ensures Count(ControlFrames(InitWrites(dat)), CreateInit) == 1
    ensures Count(ControlFrames(InitWrites(dat)), SelectData) == 0
    ensures Count(ControlFrames(ImageWrites(bin)), CreateInit) == 0
    ensures Count(ControlFrames(ImageWrites(bin)), SelectData) == 0
  {
    InitUploadShape(dat);
    ImageUploadShape(bin);
    ObjectCommandsCount(Objects(bin));
    CountTriple(CreateInit, CalculateChecksum, Execute, CreateInit);
    CountTriple(CreateInit, CalculateChecksum, Execute, SelectData);
  }

  // ---------------------------------------------------------------------------
  // Progress

  lemma MulMonotone(a: int, b: int, c: nat)
    requires a <= b
    ensures a * c <= b * c
  {
  }

  /** Integer division by a positive number preserves `<=`. */
  lemma DivMonotone(x: nat, y: nat, t: nat)
    requires x <= y && 0 < t
    ensures x / t <= y / t
  {
    var qx, qy := x / t, y / t;
    assert x == qx * t + x % t;
    assert y == qy * t + y % t;
    assert (qy + 1) * t == qy * t + t;
    if qx > qy {
      MulMonotone(qy + 1, qx, t);
    }
  }

  /** `x < k * t` bounds the quotient `x / t` below `k`. */
  lemma DivBelow(x: nat, t: nat, k: nat)
    requires 0 < t && x < k * t
    ensures x / t < k
  {
    var q := x / t;
    assert x == q * t + x % t;
    if q >= k {
      MulMonotone(k, q, t);
    }
  }

  lemma PercentInRange(offset: nat, total: nat)
    requires offset < total <= MaxImageLength
    ensures Percent(offset, total) == offset * 100 / total
    ensures 0 <= Percent(offset, total) < 100
  {
    var x := offset * 100;
    assert x < 0x8000_0000;
    assert Wrap32(x) == x;
    MulMonotone(offset, total, 100);
    DivBelow(x, total, 100);
  }

  lemma PercentMonotone(a: nat, b: nat, total: nat)
    requires a <= b < total <= MaxImageLength
    ensures Percent(a, total) <= Percent(b, total)
  {
    PercentInRange(a, total);
    PercentInRange(b, total);
    DivMonotone(a * 100, b * 100, total);
  }

  /** Every progress value reported from object start `from` on is the percentage
      of an object start at or after `from`, so it lies within [Percent(from), 99]. */
  lemma {:induction false} ProgressFromBounds(bin: seq<byte>, from: nat)
    requires from <= |bin| <= MaxImageLength
    ensures forall v :: v in ProgressFrom(bin, from) ==> from < |bin| && Percent(from, |bin|) <= v <= 99
    decreases |bin| - from
  {
    if from < |bin| {
      var n := SliceLength(|bin|, from, ObjectSize);
      ProgressFromBounds(bin, from + n);
      PercentInRange(from, |bin|);
      if from + n < |bin| {
        PercentMonotone(from, from + n, |bin|);
      }
      var head := Repeat(Percent(from, |bin|), |Chunks(bin[from..from + n], LinkChunkSize, 0)|);
      assert ProgressFrom(bin, from) == head + ProgressFrom(bin, from + n);
    }
  }

  ghost predicate Sorted(p: seq<int>) {
    forall i, j :: 0 <= i <= j < |p| ==> p[i] <= p[j]
  }

  lemma SortedAfterRun(v: int, n: nat, rest: seq<int>)
    requires Sorted(rest)
    requires forall x :: x in rest ==> v <= x
    ensures Sorted(Repeat(v, n) + rest)
  {
    var head := Repeat(v, n);
    var p := head + rest;
    forall i, j | 0 <= i <= j < |p| ensures p[i] <= p[j] {
      if j >= n {
        assert p[j] == rest[j - n];
        assert p[j] in rest;
        if i >= n {
          assert p[i] == rest[i - n];
        }
      }
    }
  }

  /** The progress values never decrease. */
  lemma {:induction false} ProgressFromSorted(bin: seq<byte>, from: nat)
    requires from <= |bin| <= MaxImageLength
    ensures Sorted(ProgressFrom(bin, from))
    decreases |bin| - from
  {
    if from < |bin| {
      var n := SliceLength(|bin|, from, ObjectSize);
      ProgressFromSorted(bin, from + n);
      ProgressFromBounds(bin, from + n);
      var v := Percent(from, |bin|);
      if from + n < |bin| {
        PercentMonotone(from, from + n, |bin|);
      }
      SortedAfterRun(v, |Chunks(bin[from..from + n], LinkChunkSize, 0)|, ProgressFrom(bin, from + n));
    }
  }

  /** The image branch reports one value per link chunk; the values start at 0,
      never decrease and stay within [0, 99], so only the select-data step reports 100. */
  lemma ImageProgressFacts(bin: seq<byte>)
    requires |bin| <= MaxImageLength
    ensures var p := ImageProgress(bin);
      (forall i :: 0 <= i < |p| ==> 0 <= p[i] <= 99)
      && Sorted(p)
      && (|p| > 0 ==> p[0] == 0)
      && (|p| == 0 <==> bin == [])
  {
    ProgressFromBounds(bin, 0);
    ProgressFromSorted(bin, 0);
    var p := ImageProgress(bin);
    assert p == ProgressFrom(bin, 0);
    forall i | 0 <= i < |p| ensures 0 <= p[i] <= 99 {
      assert p[i] in p;
      PercentInRange(0, |bin|);
    }
    if bin != [] {
      var n := SliceLength(|bin|, 0, ObjectSize);
      ChunksCount(bin[0..n], LinkChunkSize, 0);
      assert Percent(0, |bin|) == 0;
    }
  }

  /** The C# `int` product `offset * 100` wraps once an object starts past
      21474836 bytes, and its sign then changes every 2^31 of the true product:
      negative for products in [2^31, 2^32), positive in [2^32, 3 * 2^31),
      negative again in [3 * 2^31, 2^33), and so on. The last object of a
      21475328-byte image still reports 99; object start 24576000 of a
      30000000-byte image reports -61; object start 45056000 of a 50000000-byte
      image reports 4; object start 70000640 of an 80000000-byte image
      reports -19. */
  lemma PercentOverflow()
    ensures 5242 * ObjectSize == 21471232 && Percent(21471232, 21475328) == 99
    ensures 6000 * ObjectSize == 24576000 && Percent(24576000, 30000000) == -61
    ensures 11000 * ObjectSize == 45056000 && Percent(45056000, 50000000) == 4
    ensures 17090 * ObjectSize == 70000640 && Percent(70000640, 80000000) == -19
  {
  }
}
