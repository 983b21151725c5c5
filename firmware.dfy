/** Which firmware buffers a picked file yields: a `.bin` file is the image on
    its own; anything else is read as an archive whose `.bin` and `.dat`
    entries become the image and the init packet. */
module Firmware {
  import opened Wrappers
  import opened Chunking
  import opened Text

  /** One archive entry: its full name and the bytes stored for it (after a
      short read, the zero-padded buffer), or `None` when opening it or taking
      its length throws. */
  datatype ArchiveEntry = ArchiveEntry(fullName: string, content: Option<seq<byte>>)

  /** A picked file: its name, its bytes, and its entries when the bytes are a
      readable archive (`None`: opening the archive throws). */
  datatype PickedFile = PickedFile(fileName: string, data: seq<byte>, entries: Option<seq<ArchiveEntry>>)

  /** The dictionary key an entry name is stored under, if any. The
      `OrdinalIgnoreCase` suffix tests lower-case the name and compare it with
      the suffixes, which are lower-case already (`EntryKeyMatches`). */
  function EntryKey(name: string): (k: Option<string>)
    ensures k.Some? ==> k.value == "bin" || k.value == "dat"
  {
    if EndsWith(ToLower(name), ".bin") then Some("bin")
    else if EndsWith(ToLower(name), ".dat") then Some("dat")
    else None
  }

  /** An entry is stored under `bin` exactly when its last four characters
      lower-case to `.bin`, under `dat` exactly when they lower-case to `.dat`,
      and skipped exactly when it passes neither case-insensitive test: there
      is no other branch. */
  lemma EntryKeyMatches(name: string)
    ensures EntryKey(name) == Some("bin") <==> 4 <= |name| && ToLower(name[|name| - 4..]) == ".bin"
    ensures EntryKey(name) == Some("dat") <==> 4 <= |name| && ToLower(name[|name| - 4..]) == ".dat"
    ensures EntryKey(name).None? <==> !EndsWithIgnoreCase(name, ".bin") && !EndsWithIgnoreCase(name, ".dat")
  {
    SuffixFolded(name, ".bin");
    SuffixFolded(name, ".dat");
  }

  /** A case-insensitive test for a lower-case suffix compares the lower-cased
      tail of the name with it. */
  lemma SuffixFolded(name: string, lower: string)
    requires ToLower(lower) == lower
    ensures EndsWithIgnoreCase(name, lower) <==>
      |lower| <= |name| && ToLower(name[|name| - |lower|..]) == lower
  {
    if |lower| <= |name| {
      var tail := name[|name| - |lower|..];
      if EndsWithIgnoreCase(name, lower) {
        FoldedTail(name, lower);
      }
      if ToLower(tail) == lower {
        TailFolded(name, lower);
      }
    }
  }

  lemma FoldedTail(name: string, lower: string)
    requires ToLower(lower) == lower && EndsWithIgnoreCase(name, lower)
    ensures ToLower(name[|name| - |lower|..]) == lower
  {
    var tail := name[|name| - |lower|..];
    var t := ToLower(tail);
    forall i | 0 <= i < |lower| ensures t[i] == lower[i] {
      var c := name[|name| - |lower| + i];
      assert tail[i] == c;
      assert t[i] == ToLowerAscii(c) == ToLowerAscii(lower[i]);
      assert ToLower(lower)[i] == ToLowerAscii(lower[i]);
    }
    assert t == lower;
  }

  lemma TailFolded(name: string, lower: string)
    requires ToLower(lower) == lower && |lower| <= |name|
    requires ToLower(name[|name| - |lower|..]) == lower
    ensures EndsWithIgnoreCase(name, lower)
  {
    var tail := name[|name| - |lower|..];
    forall i | 0 <= i < |lower|
      ensures ToLowerAscii(name[|name| - |lower| + i]) == ToLowerAscii(lower[i])
    {
      assert tail[i] == name[|name| - |lower| + i];
      assert ToLower(tail)[i] == ToLowerAscii(tail[i]);
      assert ToLower(lower)[i] == ToLowerAscii(lower[i]);
    }
  }

  /** The dictionary the archive loop returns, starting from `acc`: entries are
      visited in order, a later match overwrites an earlier one, and the first
      matching entry that cannot be read ends the loop (the exception is
      caught outside it). */
  function ArchiveFilesFrom(entries: seq<ArchiveEntry>, acc: map<string, seq<byte>>): (r: map<string, seq<byte>>)
    ensures acc.Keys <= r.Keys
    ensures forall k :: k in r && k !in acc ==> k == "bin" || k == "dat"
    decreases |entries|
  {
    if entries == [] then acc
    else
      var e := entries[0];
      match EntryKey(e.fullName)
      case None => ArchiveFilesFrom(entries[1..], acc)
      case Some(k) =>
        if e.content.None? then acc
        else ArchiveFilesFrom(entries[1..], acc[k := e.content.value])
  }

  /** The dictionary an archive yields; it holds at most the image and the init packet. */
  function ArchiveFiles(entries: seq<ArchiveEntry>): (r: map<string, seq<byte>>)
    ensures r.Keys <= {"bin", "dat"}
  {
    ArchiveKeys(entries, map[]);
    ArchiveFilesFrom(entries, map[])
  }

  /** What a picked file leaves in the dictionary. */
  function FirmwareFiles(p: PickedFile): (r: map<string, seq<byte>>)
    ensures r.Keys <= {"bin", "dat"}
    ensures "dat" in r ==> !EndsWith(p.fileName, ".bin") && p.entries.Some?
    ensures EndsWith(p.fileName, ".bin") ==> "bin" in r && r["bin"] == p.data
  {
    if EndsWith(p.fileName, ".bin") then map["bin" := p.data]
    else if p.entries.None? then map[]
    else ArchiveFiles(p.entries.value)
  }

  /** Every entry whose name gives it a key can be read. */
  predicate AllReadable(entries: seq<ArchiveEntry>) {
    forall i :: 0 <= i < |entries| && EntryKey(entries[i].fullName).Some? ==> entries[i].content.Some?
  }

  /** Entry `i` is the last one stored under `k`. */
  predicate LastMatch(entries: seq<ArchiveEntry>, k: string, i: int) {
    0 <= i < |entries| && EntryKey(entries[i].fullName) == Some(k)
    && forall j :: i < j < |entries| ==> EntryKey(entries[j].fullName) != Some(k)
  }

  /** The archive loop as written: visits the entries and fills a fresh dictionary. */
  method ReadArchive(entries: seq<ArchiveEntry>) returns (files: map<string, seq<byte>>)
    ensures files == ArchiveFiles(entries)
    ensures files.Keys <= {"bin", "dat"}
  {
    files := map[];
    var i := 0;
    while i < |entries|
      invariant 0 <= i <= |entries|
      invariant ArchiveFilesFrom(entries[i..], files) == ArchiveFiles(entries)
      invariant files.Keys <= {"bin", "dat"}
    {
      var e := entries[i];
      assert entries[i..][1..] == entries[i + 1..];
      var key := EntryKey(e.fullName);
      if key.Some? {
        if e.content.None? {
          // opening or reading the entry throws; the dictionary built so far is returned
          ArchiveKeys(entries[i..], files);
          return;
        }
        files := files[key.value := e.content.value];
      }
      i := i + 1;
    }
    assert entries[i..] == [];
  }

  lemma {:induction false} ArchiveKeys(entries: seq<ArchiveEntry>, acc: map<string, seq<byte>>)
    requires acc.Keys <= {"bin", "dat"}
    ensures ArchiveFilesFrom(entries, acc).Keys <= {"bin", "dat"}
    decreases |entries|
  {
    if entries != [] {
      var e := entries[0];
      if EntryKey(e.fullName).Some? && e.content.Some? {
        ArchiveKeys(entries[1..], acc[EntryKey(e.fullName).value := e.content.value]);
      } else if EntryKey(e.fullName).None? {
        ArchiveKeys(entries[1..], acc);
      }
    }
  }

  /** A key that some entry matches has a last matching entry. */
  lemma {:induction false} LastMatchExists(entries: seq<ArchiveEntry>, k: string, j: int)
    requires 0 <= j < |entries| && EntryKey(entries[j].fullName) == Some(k)
    ensures exists i :: j <= i && LastMatch(entries, k, i)
    decreases |entries| - j
  {
    if !LastMatch(entries, k, j) {
      var j' :| j < j' < |entries| && EntryKey(entries[j'].fullName) == Some(k);
      LastMatchExists(entries, k, j');
    }
  }

  /** With every matching entry readable, key `k` ends up in the dictionary iff
      some entry matches it, and then holds the bytes of the LAST such entry;
      without a match the starting value stays. */
  lemma {:induction false} ArchiveLastMatchWins(entries: seq<ArchiveEntry>, acc: map<string, seq<byte>>, k: string)
    requires AllReadable(entries)
    ensures var r := ArchiveFilesFrom(entries, acc);
      (k in r <==> k in acc || exists i :: LastMatch(entries, k, i))
      && (forall i :: LastMatch(entries, k, i) ==> r[k] == entries[i].content.value)
      && ((forall i :: !LastMatch(entries, k, i)) && k in acc ==> r[k] == acc[k])
    decreases |entries|
  {
    if entries != [] {
      var e := entries[0];
      var rest := entries[1..];
      assert AllReadable(rest) by {
        forall i | 0 <= i < |rest| && EntryKey(rest[i].fullName).Some? ensures rest[i].content.Some? {
          assert rest[i] == entries[i + 1];
        }
      }
      var acc' := if EntryKey(e.fullName).Some? then acc[EntryKey(e.fullName).value := e.content.value] else acc;
      ArchiveLastMatchWins(rest, acc', k);
      // last matches in `rest` are last matches in `entries`, shifted by one
      forall i | LastMatch(rest, k, i) ensures LastMatch(entries, k, i + 1) {
        forall j | i + 1 < j < |entries| ensures EntryKey(entries[j].fullName) != Some(k) {
          assert entries[j] == rest[j - 1];
        }
      }
      forall i | LastMatch(entries, k, i) && i > 0 ensures LastMatch(rest, k, i - 1) {
        forall j | i - 1 < j < |rest| ensures EntryKey(rest[j].fullName) != Some(k) {
          assert rest[j] == entries[j + 1];
        }
      }
      if LastMatch(entries, k, 0) {
        forall i | 0 <= i < |rest| ensures !LastMatch(rest, k, i) {
          assert EntryKey(entries[i + 1].fullName) != Some(k);
        }
      }
      if EntryKey(e.fullName) == Some(k) {
        LastMatchExists(entries, k, 0);
      }
    }
  }

  /** An unreadable matching entry at `f` ends the loop: nothing from `f` on
      reaches the dictionary. */
  lemma {:induction false} ArchiveStopsAtUnreadable(entries: seq<ArchiveEntry>, acc: map<string, seq<byte>>, f: nat)
    requires f < |entries| && EntryKey(entries[f].fullName).Some? && entries[f].content.None?
    ensures ArchiveFilesFrom(entries, acc) == ArchiveFilesFrom(entries[..f], acc)
    decreases f
  {
    if f > 0 {
      var e := entries[0];
      var key := EntryKey(e.fullName);
      var prefix := entries[..f];
      assert prefix[0] == e && prefix[1..] == entries[1..][..f - 1];
      if key.None? || e.content.Some? {
        var acc' := if key.None? then acc else acc[key.value := e.content.value];
        ArchiveStopsAtUnreadable(entries[1..], acc', f - 1);
        assert ArchiveFilesFrom(entries, acc) == ArchiveFilesFrom(entries[1..], acc');
        assert ArchiveFilesFrom(prefix, acc) == ArchiveFilesFrom(prefix[1..], acc');
      }
    }
  }

  /** The picked-file test is case-sensitive, the archive-entry test is not:
      inside an archive every spelling of `.bin` (`.BIN`, `.Bin`, ...) names the
      image and every spelling of `.dat` the init packet, while a picked name
      ending in any spelling other than `.bin` is opened as an archive. */
  lemma SuffixCaseSensitivity(stem: string, bin: string, dat: string)
    requires ToLower(bin) == ".bin" && ToLower(dat) == ".dat"
    ensures EntryKey(stem + bin) == Some("bin")
    ensures EntryKey(stem + dat) == Some("dat")
    ensures bin != ".bin" ==> !EndsWith(stem + bin, ".bin")
  {
    var b, d := stem + bin, stem + dat;
    EntryKeyMatches(b);
    EntryKeyMatches(d);
    assert b[|b| - 4..] == bin && d[|d| - 4..] == dat;
    if bin != ".bin" {
      OtherSpellingMisses(stem, bin, ".bin");
    }
  }

  /** The ordinal suffix test fails for a name ending in a different spelling
      of the same length. */
  lemma OtherSpellingMisses(stem: string, x: string, suffix: string)
    requires |x| == |suffix| && x != suffix
    ensures !EndsWith(stem + x, suffix)
  {
    var s := stem + x;
    assert s[|s| - |suffix|..] == x;
  }

}
