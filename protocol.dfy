/** The Secure DFU control-point frames, the classification of control-point
    notifications, and what an init upload and an image upload write. */
module DfuProtocol {
  import opened Chunking

  /** Init data is sent as link chunks of this many bytes. */
  const LinkChunkSize: nat := 20
  /** The image is sent in objects of at most this many bytes. */
  const ObjectSize: nat := 4096

  /** The two characteristics of the secure DFU service the upload writes to. */
  datatype Channel = ControlPoint | Packet

  /** One `WriteAsync` call: the characteristic and the bytes written. */
  datatype Write = Write(channel: Channel, bytes: seq<byte>)

  // Control-point opcodes: Create 0x01, Calculate Checksum 0x03, Execute 0x04,
  // Select 0x06; object type 0x01 is the init command, 0x02 the data object.
  const SelectInit: seq<byte> := [0x06, 0x01]
  const SelectData: seq<byte> := [0x06, 0x02]
  const CalculateChecksum: seq<byte> := [0x03]
  const Execute: seq<byte> := [0x04]
  /** The init create frame as written: `ToList().AddRange(...)` extends a copy,
      so the size bytes never reach the written array. */
  const CreateInit: seq<byte> := [0x01, 0x01]
  const CreateFullData: seq<byte> := [0x01, 0x02, 0x00, 0x10, 0x00, 0x00]
  const CreateShortData: seq<byte> := [0x01, 0x02]

  /** `BitConverter.GetBytes(int)` on a little-endian host, for a non-negative `int`. */
  function LittleEndian32(n: nat): (r: seq<byte>)
    ensures |r| == 4
    ensures n < 0x1_0000_0000 ==> r[0] as int + 0x100 * r[1] as int + 0x1_0000 * r[2] as int + 0x100_0000 * r[3] as int == n
  {
    var n1 := n / 0x100;
    var n2 := n1 / 0x100;
    var n3 := n2 / 0x100;
    assert n == n % 0x100 + 0x100 * n1;
    assert n1 == n1 % 0x100 + 0x100 * n2;
    assert n2 == n2 % 0x100 + 0x100 * n3;
    assert n < 0x1_0000_0000 ==> n1 < 0x100_0000 && n2 < 0x1_0000 && n3 < 0x100;
    [n % 0x100, n1 % 0x100, n2 % 0x100, n3 % 0x100]
  }

  /** The create frame for an image object of `len` bytes. */
  function CreateDataFrame(len: nat): (f: seq<byte>)
    ensures 2 <= |f| && f[..2] == [0x01, 0x02]
    ensures len == ObjectSize ==> f[2..] == LittleEndian32(ObjectSize)
    ensures len != ObjectSize ==> f == [0x01, 0x02]
  {
    if len == ObjectSize then CreateFullData else CreateShortData
  }

  /** A control-point notification, classified by its first three bytes. */
  datatype Response =
    | Malformed        // fewer than three bytes: `Array.Copy` throws
    | ObjectSelected   // 60 06 01: select succeeded
    | Executed         // exactly 60 04 01: execute succeeded
    | Ignored          // anything else

  function Classify(d: seq<byte>): (r: Response)
    ensures r == Malformed <==> |d| < 3
    ensures r == ObjectSelected <==> 3 <= |d| && d[0] == 0x60 && d[1] == 0x06 && d[2] == 0x01
    ensures r == Executed <==> d == [0x60, 0x04, 0x01]
  {
    if |d| < 3 then Malformed
    else if d[..3] == [0x60, 0x06, 0x01] then ObjectSelected
    else if d[..3] == [0x60, 0x04, 0x01] && |d| == 3 then Executed
    else Ignored
  }

  /** One packet-characteristic write per chunk, in order. */
  function PacketWrites(cs: seq<seq<byte>>): (r: seq<Write>)
    ensures |r| == |cs|
  {
    if cs == [] then [] else [Write(Packet, cs[0])] + PacketWrites(cs[1..])
  }

  /** The link chunks of a buffer, each one packet write. */
  function LinkWrites(buf: seq<byte>): (r: seq<Write>)
    ensures |r| * LinkChunkSize >= |buf| && (|r| - 1) * LinkChunkSize < |buf|
  {
    ChunksCount(buf, LinkChunkSize, 0);
    PacketWrites(Chunks(buf, LinkChunkSize, 0))
  }

  /** What the init branch writes for the init buffer `dat`. */
  function InitWrites(dat: seq<byte>): (r: seq<Write>)
    ensures |r| == |Chunks(dat, LinkChunkSize, 0)| + 3
    ensures r[0] == Write(ControlPoint, CreateInit)
    ensures r[|r| - 2..] == [Write(ControlPoint, CalculateChecksum), Write(ControlPoint, Execute)]
  {
    [Write(ControlPoint, CreateInit)] + LinkWrites(dat)
      + [Write(ControlPoint, CalculateChecksum), Write(ControlPoint, Execute)]
  }

  /** What one image object costs on the wire. */
  function ObjectWrites(obj: seq<byte>): (r: seq<Write>)
    ensures |r| == |Chunks(obj, LinkChunkSize, 0)| + 3
    ensures r[0] == Write(ControlPoint, CreateDataFrame(|obj|))
    ensures r[|r| - 2..] == [Write(ControlPoint, CalculateChecksum), Write(ControlPoint, Execute)]
  {
    [Write(ControlPoint, CreateDataFrame(|obj|))] + LinkWrites(obj)
      + [Write(ControlPoint, CalculateChecksum), Write(ControlPoint, Execute)]
  }

  function ObjectsWrites(objs: seq<seq<byte>>): (r: seq<Write>)
    ensures r == [] <==> objs == []
  {
    if objs == [] then [] else ObjectWrites(objs[0]) + ObjectsWrites(objs[1..])
  }

  /** The image objects, cut from the start of the image. */
  function Objects(bin: seq<byte>): (r: seq<seq<byte>>)
    ensures r == [] <==> bin == []
  {
    Chunks(bin, ObjectSize, 0)
  }

  /** What the image branch writes for the image `bin`. */
  function ImageWrites(bin: seq<byte>): (r: seq<Write>)
    ensures r == [] <==> bin == []
    ensures bin != [] ==> r[0] == Write(ControlPoint, CreateDataFrame(Min(|bin|, ObjectSize)))
  {
    ObjectsWrites(Objects(bin))
  }

  // ---------------------------------------------------------------------------
  // Progress

  /** C# `int` multiplication wraps to 32 bits. */
  function Wrap32(x: int): (r: int)
    ensures -0x8000_0000 <= r < 0x8000_0000
    ensures -0x8000_0000 <= x < 0x8000_0000 ==> r == x
    ensures (x - r) % 0x1_0000_0000 == 0
  {
    var q := (x + 0x8000_0000) / 0x1_0000_0000;
    assert x - ((x + 0x8000_0000) % 0x1_0000_0000 - 0x8000_0000) == q * 0x1_0000_0000;
    (x + 0x8000_0000) % 0x1_0000_0000 - 0x8000_0000
  }

  /** Dafny's `/` on a non-negative dividend rounds down. */
  lemma NonNegQuotient(a: int, b: int)
    requires a >= 0 && b > 0
    ensures 0 <= a / b && (a / b) * b <= a < (a / b) * b + b
  {
  }

  /** Negating the quotient of the magnitude rounds a negative dividend up. */
  lemma NegQuotient(a: int, b: int)
    requires a < 0 && b > 0
    ensures -((-a) / b) <= 0 && -((-a) / b) * b - b < a <= -((-a) / b) * b
  {
    var q := (-a) / b;
    NonNegQuotient(-a, b);
    assert -q * b == -(q * b);
  }

  /** C# integer division truncates toward zero. */
  function TruncDiv(a: int, b: int): (r: int)
    requires b > 0
    ensures 0 <= a ==> 0 <= r && r * b <= a < r * b + b
    ensures a < 0 ==> r <= 0 && r * b - b < a <= r * b
  {
    if a >= 0 then
      NonNegQuotient(a, b);
      a / b
    else
      NegQuotient(a, b);
      -((-a) / b)
  }

  /** `(int)(offset * 100 / totalLength)` with C# `int` semantics. */
  function Percent(offset: nat, total: nat): (r: int)
    requires 0 < total
    ensures offset * 100 < 0x8000_0000 ==> r == offset * 100 / total
  {
    TruncDiv(Wrap32(offset * 100), total)
  }

  /** A sufficient bound on the image length: below it `offset * 100` cannot
      overflow a C# `int`. (Wrap-around first happens at a larger image, because
      object offsets are multiples of 4096.) */
  const MaxImageLength: nat := 21474836

  function Repeat(v: int, n: nat): (r: seq<int>)
    ensures |r| == n
    ensures forall i :: 0 <= i < n ==> r[i] == v
  {
    if n == 0 then [] else [v] + Repeat(v, n - 1)
  }

  /** The values assigned to the progress dialog while the object `obj`,
      starting at `offset` of a `total`-byte image, is sent: one per link chunk,
      each the percentage of the object's start. */
  function ObjectProgress(obj: seq<byte>, offset: nat, total: nat): (r: seq<int>)
    requires 0 < total
    ensures |r| * LinkChunkSize >= |obj| && (|r| - 1) * LinkChunkSize < |obj|
    ensures forall i :: 0 <= i < |r| ==> r[i] == Percent(offset, total)
  {
    ChunksCount(obj, LinkChunkSize, 0);
    Repeat(Percent(offset, total), |Chunks(obj, LinkChunkSize, 0)|)
  }

  /** The values assigned to the progress dialog while the objects from `from`
      on are sent. */
  function ProgressFrom(bin: seq<byte>, from: nat): (r: seq<int>)
    requires from <= |bin|
    ensures r == [] <==> from == |bin|
    ensures from < |bin| ==> r[0] == Percent(from, |bin|)
    decreases |bin| - from
  {
    if from == |bin| then []
    else
      var n := SliceLength(|bin|, from, ObjectSize);
      ObjectProgress(bin[from..from + n], from, |bin|) + ProgressFrom(bin, from + n)
  }

  function ImageProgress(bin: seq<byte>): (r: seq<int>)
    ensures r == [] <==> bin == []
    ensures bin != [] ==> r[0] == 0
  {
    ProgressFrom(bin, 0)
  }

  // ---------------------------------------------------------------------------
  // Views of a write log

  /** The bytes written to the control point, in order. */
  function ControlFrames(ws: seq<Write>): seq<seq<byte>> {
    if ws == [] then []
    else (if ws[0].channel == ControlPoint then [ws[0].bytes] else []) + ControlFrames(ws[1..])
  }

  /** The bytes written to the packet characteristic, in order. */
  function PacketPayloads(ws: seq<Write>): seq<seq<byte>> {
    if ws == [] then []
    else (if ws[0].channel == Packet then [ws[0].bytes] else []) + PacketPayloads(ws[1..])
  }

  function Count(frames: seq<seq<byte>>, f: seq<byte>): nat {
    if frames == [] then 0 else (if frames[0] == f then 1 else 0) + Count(frames[1..], f)
  }
}
