/** String helpers of the main page: ASCII lower-casing, prefix and suffix
    tests, and the `0xHH,...` hex dump written to the debug log. */
module Text {
  import opened Chunking

  function ToLowerAscii(c: char): char {
    if 'A' <= c <= 'Z' then (c as int + 32) as char else c
  }

  function ToLower(s: string): (r: string)
    ensures |r| == |s|
    ensures forall i :: 0 <= i < |s| ==> r[i] == ToLowerAscii(s[i])
  {
    if s == [] then [] else [ToLowerAscii(s[0])] + ToLower(s[1..])
  }

  /** `s.StartsWith(prefix)`: exact comparison. */
  predicate StartsWith(s: string, prefix: string)
    ensures StartsWith(s, prefix) <==>
      |prefix| <= |s| && forall i :: 0 <= i < |prefix| ==> s[i] == prefix[i]
  {
    |prefix| <= |s| && s[..|prefix|] == prefix
  }

  /** `s.EndsWith(suffix)`: exact comparison. */
  predicate EndsWith(s: string, suffix: string)
    ensures EndsWith(s, suffix) <==>
      |suffix| <= |s| && forall i :: 0 <= i < |suffix| ==> s[|s| - |suffix| + i] == suffix[i]
  {
    |suffix| <= |s| && s[|s| - |suffix|..] == suffix
  }

  /** `s.EndsWith(suffix, StringComparison.OrdinalIgnoreCase)` for ASCII letters. */
  predicate EndsWithIgnoreCase(s: string, suffix: string)
    ensures EndsWithIgnoreCase(s, suffix) <==>
      |suffix| <= |s| && forall i :: 0 <= i < |suffix| ==> ToLowerAscii(s[|s| - |suffix| + i]) == ToLowerAscii(suffix[i])
  {
    EndsWith(ToLower(s), ToLower(suffix))
  }

  // ---------------------------------------------------------------------------
  // Hex dump

  /** An upper-case hexadecimal digit, as `ToString("X2")` writes them. */
  predicate IsUpperHexDigit(c: char) {
    '0' <= c <= '9' || 'A' <= c <= 'F'
  }

  /** The value of an upper-case hexadecimal digit. */
  function HexValue(c: char): (n: nat)
    requires IsUpperHexDigit(c)
    ensures n < 16
  {
    if c <= '9' then (c - '0') as nat else (c - 'A') as nat + 10
  }

  function HexDigit(n: nat): (c: char)
    requires n < 16
    ensures IsUpperHexDigit(c) && HexValue(c) == n
  {
    "0123456789ABCDEF"[n]
  }

  /** `$"0x{b.ToString("X2")}"`: four characters, upper-case digits that read
      back as `b`. */
  function HexByte(b: byte): (r: string)
    ensures |r| == 4 && r[..2] == "0x"
    ensures IsUpperHexDigit(r[2]) && IsUpperHexDigit(r[3])
    ensures HexValue(r[2]) * 16 + HexValue(r[3]) == b
    ensures r[3] != ','
  {
    ['0', 'x', HexDigit(b / 16), HexDigit(b % 16)]
  }

  /** The text the dump loop builds: every byte followed by a comma. */
  function Listing(bs: seq<byte>): (r: string)
    ensures ListingFields(bs, r)
  {
    if bs == [] then ""
    else
      var prev := Listing(bs[..|bs| - 1]);
      ListingStep(bs, prev);
      prev + HexByte(bs[|bs| - 1]) + ","
  }

  /** Byte i of the listing is `0xHH,` at position 5i. */
  ghost predicate ListingFields(bs: seq<byte>, r: string) {
    && |r| == 5 * |bs|
    && (forall i :: 0 <= i < |bs| ==> r[5 * i..5 * i + 5] == HexByte(bs[i]) + ",")
  }

  lemma ListingStep(bs: seq<byte>, prev: string)
    requires bs != [] && ListingFields(bs[..|bs| - 1], prev)
    ensures ListingFields(bs, prev + HexByte(bs[|bs| - 1]) + ",")
  {
    var n := |bs| - 1;
    var r := prev + HexByte(bs[n]) + ",";
    forall i | 0 <= i < |bs|
      ensures r[5 * i..5 * i + 5] == HexByte(bs[i]) + ","
    {
      if i < n {
        assert r[5 * i..5 * i + 5] == prev[5 * i..5 * i + 5];
        assert bs[..n][i] == bs[i];
      } else {
        assert r[5 * i..5 * i + 5] == HexByte(bs[n]) + ",";
      }
    }
  }

  /** The bytes as `0xHH` joined by commas (`string.Join(",", ...)`). */
  function Joined(bs: seq<byte>): (r: string)
    ensures |r| == if bs == [] then 0 else 5 * |bs| - 1
    ensures bs != [] ==> JoinedFields(bs, r)
  {
    if bs == [] then ""
    else if |bs| == 1 then HexByte(bs[0])
    else
      var init := bs[..|bs| - 1];
      var prev := Joined(init);
      JoinedStep(bs, prev);
      prev + "," + HexByte(bs[|bs| - 1])
  }

  /** The byte fields of `Joined` are `0xHH` at every fifth position, separated
      by single commas. */
  ghost predicate JoinedFields(bs: seq<byte>, r: string) {
    && |r| == 5 * |bs| - 1
    && (forall i :: 0 <= i < |bs| ==> r[5 * i..5 * i + 4] == HexByte(bs[i]))
    && (forall i :: 0 <= i < |bs| - 1 ==> r[5 * i + 4] == ',')
  }

  /** Appending `,` and the next byte to the joined text of the bytes before it
      gives the joined text of all of them. */
  lemma JoinedStep(bs: seq<byte>, prev: string)
    requires |bs| >= 2 && JoinedFields(bs[..|bs| - 1], prev)
    ensures JoinedFields(bs, prev + "," + HexByte(bs[|bs| - 1]))
  {
    var n := |bs| - 1;
    var h := HexByte(bs[n]);
    var r := prev + "," + h;
    assert |prev| == 5 * n - 1;
    forall i | 0 <= i < |bs|
      ensures r[5 * i..5 * i + 4] == HexByte(bs[i])
    {
      if i < n {
        assert r[5 * i..5 * i + 4] == prev[5 * i..5 * i + 4];
        assert bs[..n][i] == bs[i];
      } else {
        assert r[5 * i..5 * i + 4] == h;
      }
    }
    forall i | 0 <= i < |bs| - 1
      ensures r[5 * i + 4] == ','
    {
      if i < n - 1 {
        assert r[5 * i + 4] == prev[5 * i + 4];
      }
    }
  }

  /** `s.TrimEnd(c)`: drops every trailing `c`. */
  function TrimEnd(s: string, c: char): (r: string)
    ensures |r| <= |s| && r == s[..|r|]
    ensures r == [] || r[|r| - 1] != c
    ensures forall i :: |r| <= i < |s| ==> s[i] == c
  {
    if s != [] && s[|s| - 1] == c then TrimEnd(s[..|s| - 1], c) else s
  }

  lemma {:induction false} ListingIsJoinedWithComma(bs: seq<byte>)
    requires bs != []
    ensures Listing(bs) == Joined(bs) + ","
    decreases |bs|
  {
    var init := bs[..|bs| - 1];
    if |bs| > 1 {
      ListingIsJoinedWithComma(init);
    } else {
      assert init == [];
    }
  }

  /** Joined text is empty only for no bytes and otherwise ends in a hex digit. */
  lemma JoinedEnd(bs: seq<byte>)
    ensures Joined(bs) == [] <==> bs == []
    ensures Joined(bs) != [] ==> Joined(bs)[|Joined(bs)| - 1] != ','
  {
  }

  /** Trimming the trailing comma of the listing gives exactly the comma-joined bytes. */
  lemma TrimmedListing(bs: seq<byte>)
    ensures TrimEnd(Listing(bs), ',') == Joined(bs)
  {
    if bs != [] {
      ListingIsJoinedWithComma(bs);
      JoinedEnd(bs);
      var j := Joined(bs);
      assert (j + ",")[..|j + ","| - 1] == j;
    }
  }

  /** The hex dump of a notification's bytes (the loop at the start of each
      `ValueUpdated` handler, then `TrimEnd(',')`). */
  method HexDump(bytes: seq<byte>) returns (text: string)
    ensures text == Joined(bytes)
    ensures |text| == if bytes == [] then 0 else 5 * |bytes| - 1
  {
    text := "";
    var i := 0;
    while i < |bytes|
      invariant 0 <= i <= |bytes|
      invariant text == Listing(bytes[..i])
    {
      assert bytes[..i + 1][..i] == bytes[..i];
      text := text + HexByte(bytes[i]) + ",";
      i := i + 1;
    }
    assert bytes[..i] == bytes;
    TrimmedListing(bytes);
    text := TrimEnd(text, ',');
  }
}
