/**
 * The partition descriptor of the `tegrapart=` boot argument,
 * `name:start:length:size,name:...`, and what a lookup by name finds in it.
 * The lookup method itself is StarBoard.BoardGlobals.GetPartitionInfoByName;
 * this module states, without reference to its loops, which entry it must
 * pick and what it must decode there.
 */
module PartitionTable {
  import opened Wrappers
  import opened CString
  import opened Word
  import opened Strtoull

  /** What the three output pointers hold: start sector, length in sectors, sector size. */
  datatype SectorInfo = SectorInfo(start: u64, length: u64, size: u32)

  /** The lookup's return code together with the outputs after the call. */
  datatype Lookup = Lookup(ret: int, info: SectorInfo)

  /** Position 0 and every position just after a ',' begin an entry. */
  predicate IsEntryStart(s: string, q: nat): (b: bool)
    ensures b ==> q <= |s|
  {
    q == 0 || (q <= |s| && s[q - 1] == ',')
  }

  /** A character the scan passes over: not NUL, and not a space where an entry begins. */
  predicate Clear(s: string, k: nat): (b: bool)
    requires k < |s|
    ensures b ==> At(s, k) != '\0'
  {
    s[k] != '\0' && (IsEntryStart(s, k) ==> s[k] != ' ')
  }

  /** An entry the scan reaches: nothing before it, nor its own first character, ends the scan. */
  predicate ScannedEntry(s: string, q: nat): (b: bool)
    ensures b ==> At(s, q) != '\0' && At(s, q) != ' '
  {
    IsEntryStart(s, q) && q < |s| && Clear(s, q) && forall k :: 0 <= k < q ==> Clear(s, k)
  }

  /** The text at `q` is the name (up to its NUL) immediately followed by ':', which lies inside the text. */
  predicate NameAt(s: string, q: nat, name: string): (b: bool)
    ensures b ==> q + StrLen(name) < |s| && s[q + StrLen(name)] == ':'
  {
    (forall j :: 0 <= j < StrLen(name) ==> At(s, q + j) == name[j]) && At(s, q + StrLen(name)) == ':'
  }

  /** `q` is the first scanned entry that carries the name; `name:` then lies inside the text. */
  predicate FirstMatch(s: string, name: string, q: nat): (b: bool)
    ensures b ==> q + StrLen(name) + 1 <= |s|
  {
    ScannedEntry(s, q) && NameAt(s, q, name)
    && forall q' :: 0 <= q' < q && ScannedEntry(s, q') ==> !NameAt(s, q', name)
  }

  /** There is at most one first match, and its fields lie inside the descriptor. */
  lemma FirstMatchUnique(s: string, name: string, q1: nat, q2: nat)
    requires FirstMatch(s, name, q1) && FirstMatch(s, name, q2)
    ensures q1 == q2
    ensures q1 + StrLen(name) + 1 <= |s|
  {
  }

  /**
   * Decoding of the three base-16 fields that start at `p`, just after
   * `name:`. Each output is written as soon as its field is read, so a
   * delimiter check that fails leaves the earlier outputs written.
   */
  function DecodeEntry(s: string, p: nat, prior: SectorInfo): (r: Lookup)
    requires p <= |s|
    ensures r.ret == 0 || r.ret == -1
    ensures r.info.start == ParseUnsigned(s, p, true, 16).value
  {
    var f1 := ParseUnsigned(s, p, true, 16);
    var e1 := f1.end.value;
    var o1 := prior.(start := f1.value);
    if At(s, e1) != ':' then Lookup(-1, o1)
    else
      var f2 := ParseUnsigned(s, e1 + 1, true, 16);
      var e2 := f2.end.value;
      var o2 := o1.(length := f2.value);
      if At(s, e2) != ':' then Lookup(-1, o2)
      else
        var f3 := ParseUnsigned(s, e2 + 1, true, 16);
        var e3 := f3.end.value;
        var o3 := o2.(size := Truncate32(f3.value));
        if At(s, e3) != ',' && At(s, e3) != ' ' && At(s, e3) != '\0' then Lookup(-1, o3)
        else Lookup(0, o3)
  }

  /**
   * The return code never depends on what the outputs held before, and on
   * success all three outputs are overwritten; a sector size that differs
   * from its old value was written, so it is the same whatever the outputs held.
   */
  lemma DecodeEntryOverwrites(s: string, p: nat, a: SectorInfo, b: SectorInfo)
    requires p <= |s|
    ensures DecodeEntry(s, p, a).ret == DecodeEntry(s, p, b).ret
    ensures DecodeEntry(s, p, a).ret == 0 ==> DecodeEntry(s, p, a).info == DecodeEntry(s, p, b).info
    ensures DecodeEntry(s, p, a).info.size != a.size ==> DecodeEntry(s, p, a).info.size == DecodeEntry(s, p, b).info.size
  {
  }

  /**
   * The three delimiter checks, case by case: the lookup succeeds exactly when
   * all three hold; the first failing check returns -1 with the outputs written
   * up to that field, and once both ':' checks pass all three are written.
   */
  lemma DecodeEntryCases(s: string, p: nat, prior: SectorInfo, e1: nat, e2: nat)
    requires p <= |s|
    requires e1 == ParseUnsigned(s, p, true, 16).end.value
    requires At(s, e1) == ':' ==> e2 == ParseUnsigned(s, e1 + 1, true, 16).end.value
    ensures var r := DecodeEntry(s, p, prior);
            var v1 := ParseUnsigned(s, p, true, 16).value;
            && (At(s, e1) != ':' ==> r == Lookup(-1, prior.(start := v1)))
            && (At(s, e1) == ':' ==>
                  var v2 := ParseUnsigned(s, e1 + 1, true, 16).value;
                  && (At(s, e2) != ':' ==> r == Lookup(-1, prior.(start := v1, length := v2)))
                  && (At(s, e2) == ':' ==>
                        var f3 := ParseUnsigned(s, e2 + 1, true, 16);
                        var e3 := f3.end.value;
                        && r.info == SectorInfo(v1, v2, Truncate32(f3.value))
                        && (r.ret == 0 <==> At(s, e3) == ',' || At(s, e3) == ' ' || At(s, e3) == '\0')))
  {
  }

  /** One entry in the documented format: the name and the three numbers in hexadecimal, no prefix. */
  function FormatEntry(name: string, info: SectorInfo): string
  {
    name + ":" + ToHex(info.start) + ":" + ToHex(info.length) + ":" + ToHex(info.size)
  }

  /**
   * `s` holds, from 0, `name`, ':', the field texts `h1`, `h2`, `h3` separated
   * by ':', and then a character that ends the third field.
   */
  predicate FieldsAt(s: string, name: string, h1: string, h2: string, h3: string)
  {
    var p1 := |name| + 1;
    var p2 := p1 + |h1| + 1;
    var p3 := p2 + |h2| + 1;
    && p3 + |h3| <= |s|
    && s[..|name|] == name && s[|name|] == ':'
    && s[p1..p1 + |h1|] == h1 && s[p1 + |h1|] == ':'
    && s[p2..p2 + |h2|] == h2 && s[p2 + |h2|] == ':'
    && s[p3..p3 + |h3|] == h3
    && (At(s, p3 + |h3|) == ',' || At(s, p3 + |h3|) == ' ' || At(s, p3 + |h3|) == '\0')
  }

  /** `s` holds, from 0, a formatted entry for `name` and `info`: the layout FormatEntry produces. */
  predicate EntryText(s: string, name: string, info: SectorInfo)
  {
    FieldsAt(s, name, ToHex(info.start), ToHex(info.length), ToHex(info.size))
  }

  /** FormatEntry followed by the end of the string, a ',' or a space has the entry layout. */
  lemma FormatEntryLayout(name: string, info: SectorInfo, rest: string)
    requires At(rest, 0) == ',' || At(rest, 0) == ' ' || At(rest, 0) == '\0'
    ensures EntryText(FormatEntry(name, info) + rest, name, info)
  {
    EntryLayout(name, ToHex(info.start), ToHex(info.length), ToHex(info.size), rest);
  }

  /**
   * Round trip: an entry in the documented layout, at the head of the
   * descriptor, is the one found for its name (when the name holds no NUL
   * and does not start with a space), and its fields decode to the numbers
   * that were formatted, whatever the outputs held before.
   */
  lemma EntryRoundTrip(s: string, name: string, info: SectorInfo, prior: SectorInfo)
    requires EntryText(s, name, info)
    requires StrLen(name) == |name|
    requires name == [] || name[0] != ' '
    ensures FirstMatch(s, name, 0)
    ensures DecodeEntry(s, |name| + 1, prior) == Lookup(0, info)
  {
    var p1 := |name| + 1;
    var p2 := p1 + |ToHex(info.start)| + 1;
    var p3 := p2 + |ToHex(info.length)| + 1;
    assert NameAt(s, 0, name) by {
      assert forall j :: 0 <= j < |name| ==> s[j] == s[..|name|][j];
    }
    var e1, e2, e3 := EntryFieldsParse(s, name, info, p1, p2, p3);
    DecodeWellDelimited(s, p1, prior, info.start, info.length, info.size, e1, p2, e2, p3, e3);
  }

  /**
   * Round trip through the formatter: the descriptor that starts with
   * FormatEntry(name, info), followed by nothing, a ',' or a space, yields
   * `info` for `name`.
   */
  lemma FormattedEntryRoundTrip(name: string, info: SectorInfo, rest: string, prior: SectorInfo)
    requires StrLen(name) == |name|
    requires name == [] || name[0] != ' '
    requires At(rest, 0) == ',' || At(rest, 0) == ' ' || At(rest, 0) == '\0'
    ensures FirstMatch(FormatEntry(name, info) + rest, name, 0)
    ensures DecodeEntry(FormatEntry(name, info) + rest, |name| + 1, prior) == Lookup(0, info)
  {
    FormatEntryLayout(name, info, rest);
    EntryRoundTrip(FormatEntry(name, info) + rest, name, info, prior);
  }

  /**
   * The three hexadecimal fields of an entry in the documented layout read
   * back, each ending where its delimiter sits; `p1`, `p2` and `p3` are
   * where the fields start.
   */
  lemma EntryFieldsParse(s: string, name: string, info: SectorInfo, p1: nat, p2: nat, p3: nat)
    returns (e1: nat, e2: nat, e3: nat)
    requires EntryText(s, name, info)
    requires p1 == |name| + 1
    requires p2 == p1 + |ToHex(info.start)| + 1
    requires p3 == p2 + |ToHex(info.length)| + 1
    ensures p1 <= |s| && e1 < |s| && e2 < |s| && p2 == e1 + 1 && p3 == e2 + 1
    ensures ParseUnsigned(s, p1, true, 16) == Conversion(info.start, Some(e1)) && At(s, e1) == ':'
    ensures ParseUnsigned(s, p2, true, 16) == Conversion(info.length, Some(e2)) && At(s, e2) == ':'
    ensures ParseUnsigned(s, p3, true, 16) == Conversion(info.size, Some(e3))
    ensures At(s, e3) == ',' || At(s, e3) == ' ' || At(s, e3) == '\0'
  {
    e1 := p2 - 1;
    e2 := p3 - 1;
    e3 := p3 + |ToHex(info.size)|;
    assert e1 == p1 + |ToHex(info.start)| && e1 <= |s| && s[p1..e1] == ToHex(info.start) && At(s, e1) == ':';
    assert e2 == p2 + |ToHex(info.length)| && e2 <= |s| && s[p2..e2] == ToHex(info.length) && At(s, e2) == ':';
    assert e3 <= |s| && s[p3..e3] == ToHex(info.size);
    assert At(s, e3) == ',' || At(s, e3) == ' ' || At(s, e3) == '\0';
    HexField(s, p1, info.start, e1);
    HexField(s, p2, info.length, e2);
    HexField(s, p3, info.size, e3);
  }

  /** A hexadecimal field written by ToHex and ended by a delimiter reads back with the cursor on the delimiter. */
  lemma HexField(s: string, i: nat, n: u64, e: nat)
    requires e == i + |ToHex(n)| && e <= |s| && s[i..e] == ToHex(n)
    requires At(s, e) == ':' || At(s, e) == ',' || At(s, e) == ' ' || At(s, e) == '\0'
    ensures ParseUnsigned(s, i, true, 16) == Conversion(n, Some(e))
  {
    ParseToHex(s, i, n);
  }

  /** Three fields read with the right delimiters after them decode to a success. */
  lemma DecodeWellDelimited(s: string, p: nat, prior: SectorInfo, a: u64, b: u64, c: u64,
                            e1: nat, p2: nat, e2: nat, p3: nat, e3: nat)
    requires p <= |s| && p2 == e1 + 1 && p3 == e2 + 1
    requires ParseUnsigned(s, p, true, 16) == Conversion(a, Some(e1)) && At(s, e1) == ':'
    requires e1 < |s| && ParseUnsigned(s, p2, true, 16) == Conversion(b, Some(e2)) && At(s, e2) == ':'
    requires e2 < |s| && ParseUnsigned(s, p3, true, 16) == Conversion(c, Some(e3))
    requires At(s, e3) == ',' || At(s, e3) == ' ' || At(s, e3) == '\0'
    ensures DecodeEntry(s, p, prior) == Lookup(0, SectorInfo(a, b, Truncate32(c)))
  {
  }

  /** Where the name, the three fields and their delimiters sit in a formatted entry. */
  lemma EntryLayout(name: string, h1: string, h2: string, h3: string, rest: string)
    requires At(rest, 0) == ',' || At(rest, 0) == ' ' || At(rest, 0) == '\0'
    ensures FieldsAt(name + ":" + h1 + ":" + h2 + ":" + h3 + rest, name, h1, h2, h3)
  {
    var s := name + ":" + h1 + ":" + h2 + ":" + h3 + rest;
    var p3 := |name| + |h1| + |h2| + 3;
    assert At(s, p3 + |h3|) == At(rest, 0);
  }

  /** Looking up "b" in "a:1:2:3,b:4:5:6" skips the first entry and stops at the second. */
  lemma SecondEntryFound()
    ensures FirstMatch("a:1:2:3,b:4:5:6", "b", 8)
  {
    var s := "a:1:2:3,b:4:5:6";
    assert StrLen("b") == 1;
    assert !NameAt(s, 0, "b");
    assert NameAt(s, 8, "b");
    forall q | 0 < q < 8 ensures !IsEntryStart(s, q) { }
  }

  /** The second entry of "a:1:2:3,b:4:5:6" decodes to 4, 5, 6. */
  lemma SecondEntryDecodes(prior: SectorInfo)
    ensures DecodeEntry("a:1:2:3,b:4:5:6", 10, prior) == Lookup(0, SectorInfo(4, 5, 6))
  {
    var s := "a:1:2:3,b:4:5:6";
    assert ToHex(4) == "4" && ToHex(5) == "5" && ToHex(6) == "6";
    assert s[10..11] == "4" && s[12..13] == "5" && s[14..15] == "6";
    assert s[11] == ':' && s[13] == ':' && At(s, 15) == '\0';
    HexField(s, 10, 4, 11);
    HexField(s, 12, 5, 13);
    HexField(s, 14, 6, 15);
    DecodeWellDelimited(s, 10, prior, 4, 5, 6, 11, 12, 13, 14, 15);
  }

  /**
   * "a:1:2" has no third field delimiter for "a": the lookup fails, but the
   * start and length outputs have already been written.
   */
  lemma MissingFieldExample(prior: SectorInfo)
    ensures FirstMatch("a:1:2", "a", 0)
    ensures DecodeEntry("a:1:2", 2, prior) == Lookup(-1, prior.(start := 1, length := 2))
  {
    var s := "a:1:2";
    assert StrLen("a") == 1;
    assert NameAt(s, 0, "a");
    ParseToHex(s, 2, 1);
    ParseToHex(s, 4, 2);
  }

  /**
   * When the scan stops at `p` (end of string, NUL, or a space where an entry
   * begins) and no entry before `p` carries the name, no entry matches at all.
   */
  lemma ScanStops(s: string, name: string, p: nat)
    requires p <= |s|
    requires forall q :: 0 <= q < p && ScannedEntry(s, q) ==> !NameAt(s, q, name)
    requires !(p < |s| && Clear(s, p))
    ensures forall q :: !FirstMatch(s, name, q)
  {
    forall q | p <= q < |s| ensures !ScannedEntry(s, q) {
      assert !Clear(s, p);
    }
  }
}
