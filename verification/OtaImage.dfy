/**
 * The RCP update image: the generator (create_ota_image.py) and the device code
 * that finds its way in the result (esp_rcp_update.c).
 */
module OtaImage {
  import opened Common
  import opened Parser

  const FILETAG_RCP_VERSION: nat := 0
  const FILETAG_RCP_FLASH_ARGS: nat := 1
  const FILETAG_RCP_BOOTLOADER: nat := 2
  const FILETAG_RCP_PARTITION_TABLE: nat := 3
  const FILETAG_RCP_FIRMWARE: nat := 4
  const FILETAG_BR_OTA_IMAGE: nat := 5
  const FILETAG_IMAGE_HEADER: nat := 0xff

  const HEADER_ENTRY_SIZE: nat := 12
  const RCP_IMAGE_HEADER_SIZE: nat := HEADER_ENTRY_SIZE * 6
  const RCP_FLASH_ARGS_SIZE: nat := 2 * 4 * 3
  const TWO32: nat := 0x1_0000_0000

  // ------------------------------------------------------------ little-endian words

  function Le(v: nat, n: nat): (b: seq<byte>)
    ensures |b| == n
  {
    if n == 0 then [] else [v % 0x100] + Le(v / 0x100, n - 1)
  }

  function Bound(n: nat): nat {
    if n == 0 then 1 else 0x100 * Bound(n - 1)
  }

  lemma {:induction false} LeRoundTrip(v: nat, n: nat)
    requires v < Bound(n)
    ensures LeValue(Le(v, n)) == v
  {
    if n > 0 {
      LeRoundTrip(v / 0x100, n - 1);
      assert Le(v, n)[1..] == Le(v / 0x100, n - 1);
    }
  }

  lemma WordRoundTrip(v: nat)
    requires v < TWO32
    ensures LeValue(Le(v, 4)) == v
  {
    assert Bound(4) == 0x100 * (0x100 * (0x100 * (0x100 * Bound(0))));
    LeRoundTrip(v, 4);
  }

  // ------------------------------------------------------------ the table

  datatype Item = Item(tag: nat, size: nat)

  datatype Entry = Entry(tag: nat, size: nat, offset: nat)

  function Total(items: seq<Item>): nat {
    if items == [] then 0 else items[0].size + Total(items[1..])
  }

  lemma {:induction false} TotalSnoc(items: seq<Item>, item: Item)
    ensures Total(items + [item]) == Total(items) + item.size
  {
    if items == [] {
      assert items + [item] == [item];
    } else {
      TotalSnoc(items[1..], item);
      assert (items + [item])[1..] == items[1..] + [item];
    }
  }

  function EntryOf(items: seq<Item>, i: nat): Entry
    requires i < |items|
  {
    Entry(items[i].tag, items[i].size, Total(items[..i]))
  }

  /** What struct.pack('<LLL', ...) accepts. */
  predicate Packable(e: Entry) {
    e.tag < TWO32 && e.size < TWO32 && e.offset < TWO32
  }

  function Pack(e: Entry): (b: seq<byte>)
    ensures |b| == HEADER_ENTRY_SIZE
  {
    Le(e.tag, 4) + Le(e.size, 4) + Le(e.offset, 4)
  }

  function Unpack(b: seq<byte>): Entry
    requires |b| == HEADER_ENTRY_SIZE
  {
    Entry(LeValue(b[..4]), LeValue(b[4..8]), LeValue(b[8..]))
  }

  lemma UnpackPack(e: Entry)
    requires Packable(e)
    ensures Unpack(Pack(e)) == e
  {
    WordRoundTrip(e.tag);
    WordRoundTrip(e.size);
    WordRoundTrip(e.offset);
    var b := Pack(e);
    assert b[..4] == Le(e.tag, 4) && b[4..8] == Le(e.size, 4) && b[8..] == Le(e.offset, 4);
  }

  /** Tag, size and offset, in that order, each a little-endian word; and the device reads them from there. */
  lemma EntryLayout(e: Entry, b: seq<byte>)
    requires |b| == 12
    ensures Packable(e) ==> LeValue(Pack(e)[..4]) == e.tag && LeValue(Pack(e)[4..8]) == e.size
                            && LeValue(Pack(e)[8..12]) == e.offset
    ensures Unpack(b).tag == LeValue(b[..4]) && Unpack(b).size == LeValue(b[4..8])
            && Unpack(b).offset == LeValue(b[8..12])
  {
    var p := Pack(e);
    assert p[..4] == Le(e.tag, 4) && p[4..8] == Le(e.size, 4) && p[8..12] == Le(e.offset, 4);
    assert b[8..] == b[8..12];
    if Packable(e) {
      WordRoundTrip(e.tag);
      WordRoundTrip(e.size);
      WordRoundTrip(e.offset);
    }
  }

  /** The first n entries, packed. */
  function Table(items: seq<Item>, n: nat): (b: seq<byte>)
    requires n <= |items|
    ensures |b| == n * HEADER_ENTRY_SIZE
  {
    if n == 0 then [] else Table(items, n - 1) + Pack(EntryOf(items, n - 1))
  }

  predicate AllPackable(items: seq<Item>, n: nat)
    requires n <= |items|
  {
    forall i | 0 <= i < n :: Packable(EntryOf(items, i))
  }

  lemma {:induction false} TableSlice(items: seq<Item>, n: nat, i: nat)
    requires i < n <= |items|
    ensures Table(items, n)[i * HEADER_ENTRY_SIZE..(i + 1) * HEADER_ENTRY_SIZE] == Pack(EntryOf(items, i))
    decreases n
  {
    if i < n - 1 {
      TableSlice(items, n - 1, i);
      SliceOfPrefix(Table(items, n), (n - 1) * HEADER_ENTRY_SIZE, i * HEADER_ENTRY_SIZE, (i + 1) * HEADER_ENTRY_SIZE);
      assert Table(items, n)[..(n - 1) * HEADER_ENTRY_SIZE] == Table(items, n - 1);
    }
  }

  // ------------------------------------------------------------ the files written and read

  class OutFile {
    var data: seq<byte>

    constructor ()
      ensures data == []
    {
      data := [];
    }

    method Write(b: seq<byte>)
      modifies this
      ensures data == old(data) + b
    {
      data := data + b;
    }
  }

  class InFile {
    const content: seq<byte>
    var pos: nat

    constructor (content: seq<byte>)
      ensures this.content == content && pos == 0
    {
      this.content, pos := content, 0;
    }

    /** At most n bytes from the current position on; fewer only at the end. */
    method Read(n: nat) returns (b: seq<byte>)
      modifies this
      ensures b == ReadAt(content, old(pos), n) && pos == old(pos) + |b|
    {
      b := ReadAt(content, pos, n);
      pos := pos + |b|;
    }
  }

  function ReadAt(content: seq<byte>, pos: nat, n: nat): (b: seq<byte>)
    ensures |b| <= n && (pos + n <= |content| ==> b == content[pos..pos + n])
  {
    if pos <= |content| then content[pos..Min(pos + n, |content|)] else []
  }

  /** The offset behind the subfile, or None when struct.pack raises. */
  method AppendSubfileHeader(fout: OutFile, tag: nat, size: nat, offset: nat) returns (next: Option<nat>)
    modifies fout
    ensures var e := Entry(tag, size, offset);
            && next == (if Packable(e) then Some(offset + size) else None)
            && fout.data == old(fout.data) + if Packable(e) then Pack(e) else []
  {
    if tag >= TWO32 || size >= TWO32 || offset >= TWO32 {
      return None;
    }
    fout.Write(Pack(Entry(tag, size, offset)));
    next := Some(offset + size);
  }

  /** The copy in blocks of 4096 bytes. */
  method AppendSubfile(fout: OutFile, content: seq<byte>)
    modifies fout
    ensures fout.data == old(fout.data) + content
  {
    var bufSize := 4096;
    var fin := new InFile(content);
    var data := fin.Read(bufSize);
    while |data| > 0
      invariant fin.content == content && |data| <= fin.pos <= |content| && data == content[fin.pos - |data|..fin.pos]
      invariant fout.data == old(fout.data) + content[..fin.pos - |data|]
      invariant data == [] ==> fin.pos == |content|
      decreases |content| - fin.pos + |data|
    {
      fout.Write(data);
      ghost var before := fin.pos;
      assert content[..before - |data|] + data == content[..before];
      data := fin.Read(bufSize);
    }
    assert content[..fin.pos] == content;
  }

  // ------------------------------------------------------------ the flash arguments

  /** A line of the flash_args file, split at white space. */
  type Line = seq<string>

  predicate Contains(s: string, word: string) {
    |word| <= |s| && (s[..|word|] == word || Contains(s[1..], word))
  }

  ghost predicate Occurs(word: string, s: string) {
    exists p, q: string :: s == p + word + q
  }

  lemma {:induction false} ContainedAt(s: string, word: string) returns (p: string, q: string)
    requires Contains(s, word)
    ensures s == p + word + q
  {
    if s[..|word|] == word {
      p, q := "", s[|word|..];
    } else {
      p, q := ContainedAt(s[1..], word);
      p := [s[0]] + p;
    }
  }

  lemma {:induction false} OccurringContained(p: string, word: string, q: string)
    ensures Contains(p + word + q, word)
    decreases |p|
  {
    var s := p + word + q;
    if p == "" {
      assert s[..|word|] == word;
    } else {
      OccurringContained(p[1..], word, q);
      assert s[1..] == p[1..] + word + q;
    }
  }

  /** The search finds exactly the words that occur. */
  lemma ContainsIff(s: string, word: string)
    ensures Contains(s, word) <==> Occurs(word, s)
  {
    if Contains(s, word) {
      var p, q := ContainedAt(s, word);
      assert s == p + word + q;
    }
    if Occurs(word, s) {
      var p, q: string :| s == p + word + q;
      OccurringContained(p, word, q);
    }
  }

  datatype FlashArg = FlashArg(tag: nat, address: nat)

  /** struct.pack('<LL', tag, offset) */
  function ArgBytes(arg: FlashArg): (b: seq<byte>)
    ensures |b| == 8 && b[..4] == Le(arg.tag, 4) && b[4..] == Le(arg.address, 4)
  {
    Le(arg.tag, 4) + Le(arg.address, 4)
  }

  function TagOf(name: string): nat {
    if Contains(name, "bootloader") then FILETAG_RCP_BOOTLOADER
    else if Contains(name, "partition_table") then FILETAG_RCP_PARTITION_TABLE
    else FILETAG_RCP_FIRMWARE
  }

  /** Two fields, the first a number of 32 bits; number is int(text, 0), None when that raises. */
  predicate GoodLine(line: Line, number: string -> Option<int>) {
    |line| == 2 && number(line[0]).Some? && 0 <= number(line[0]).value < TWO32
  }

  function ArgOf(line: Line, number: string -> Option<int>): FlashArg
    requires GoodLine(line, number)
  {
    FlashArg(TagOf(line[1]), number(line[0]).value)
  }

  predicate GoodLines(lines: seq<Line>, number: string -> Option<int>) {
    forall i | 0 <= i < |lines| :: GoodLine(lines[i], number)
  }

  function FlashBytes(lines: seq<Line>, number: string -> Option<int>): (b: seq<byte>)
    requires GoodLines(lines, number)
    ensures |b| == 8 * |lines|
  {
    if lines == [] then []
    else
      var n := |lines| - 1;
      var arg := ArgOf(lines[n], number);
      FlashBytes(lines[..n], number) + ArgBytes(arg)
  }

  lemma {:induction false} FlashBytesAt(lines: seq<Line>, number: string -> Option<int>, i: nat)
    requires GoodLines(lines, number) && i < |lines|
    ensures FlashBytes(lines, number)[8 * i..8 * i + 8] == ArgBytes(ArgOf(lines[i], number))
    decreases |lines|
  {
    var b, n := FlashBytes(lines, number), |lines| - 1;
    var front, last := FlashBytes(lines[..n], number), ArgBytes(ArgOf(lines[n], number));
    assert b == front + last && |front| == 8 * n;
    if i < n {
      assert b[8 * i..8 * i + 8] == front[8 * i..8 * i + 8] by {
        SliceInFront(front, last, 8 * i, 8 * i + 8);
      }
      FlashBytesAt(lines[..n], number, i);
      assert lines[..n][i] == lines[i];
    } else {
      assert b[8 * i..8 * i + 8] == last by {
        SliceBehind(front, last);
      }
    }
  }

  lemma SliceInFront<T>(front: seq<T>, last: seq<T>, i: nat, j: nat)
    requires i <= j <= |front|
    ensures (front + last)[i..j] == front[i..j]
  {
  }

  lemma SliceBehind<T>(front: seq<T>, last: seq<T>)
    ensures (front + last)[|front|..|front| + |last|] == last
  {
  }

  lemma OneMoreLine(lines: seq<Line>, number: string -> Option<int>, i: nat)
    requires i < |lines| && GoodLines(lines[..i], number) && GoodLine(lines[i], number)
    ensures GoodLines(lines[..i + 1], number)
    ensures FlashBytes(lines[..i + 1], number) == FlashBytes(lines[..i], number) + ArgBytes(ArgOf(lines[i], number))
  {
    assert lines[..i + 1] == lines[..i] + [lines[i]];
    assert lines[..i + 1][..i] == lines[..i];
  }

  method WriteFlashArg(fout: OutFile, name: string, address: nat)
    modifies fout
    ensures fout.data == old(fout.data) + ArgBytes(FlashArg(TagOf(name), address))
  {
    if Contains(name, "bootloader") {
      fout.Write(ArgBytes(FlashArg(FILETAG_RCP_BOOTLOADER, address)));
    } else if Contains(name, "partition_table") {
      fout.Write(ArgBytes(FlashArg(FILETAG_RCP_PARTITION_TABLE, address)));
    } else {
      fout.Write(ArgBytes(FlashArg(FILETAG_RCP_FIRMWARE, address)));
    }
  }

  /** The first line is skipped; every other one becomes a tag and an address. */
  method AppendFlashArgs(fout: OutFile, file: seq<Line>, number: string -> Option<int>) returns (ok: bool)
    modifies fout
    ensures ok <==> file != [] && GoodLines(file[1..], number)
    ensures ok <==> file != [] && forall i | 1 <= i < |file| ::
                      && |file[i]| == 2 && number(file[i][0]).Some?
                      && 0 <= number(file[i][0]).value < 0x1_0000_0000
    ensures ok ==> fout.data == old(fout.data) + FlashBytes(file[1..], number)
  {
    if file == [] {
      return false;
    }
    var lines := file[1..];
    assert forall i | 0 <= i < |lines| :: lines[i] == file[i + 1];
    var i := 0;
    while i < |lines|
      invariant 0 <= i <= |lines| && GoodLines(lines[..i], number)
      invariant fout.data == old(fout.data) + FlashBytes(lines[..i], number)
    {
      if !GoodLine(lines[i], number) {
        return false;
      }
      OneMoreLine(lines, number, i);
      Assoc(old(fout.data), FlashBytes(lines[..i], number), ArgBytes(ArgOf(lines[i], number)));
      WriteFlashArg(fout, lines[i][1], number(lines[i][0]).value);
      i := i + 1;
    }
    assert lines[..i] == lines;
    ok := true;
  }

  // ------------------------------------------------------------ the whole image

  /** What the generator reads; the border router's own firmware is optional. */
  datatype Build = Build(version: seq<byte>, flashArgs: seq<Line>, bootloader: seq<byte>, partitionTable: seq<byte>,
                         firmware: seq<byte>, brFirmware: Option<seq<byte>>)

  function Items(b: Build): seq<Item> {
    [Item(FILETAG_IMAGE_HEADER, RCP_IMAGE_HEADER_SIZE + (if b.brFirmware.Some? then HEADER_ENTRY_SIZE else 0)),
     Item(FILETAG_RCP_VERSION, |b.version|),
     Item(FILETAG_RCP_FLASH_ARGS, RCP_FLASH_ARGS_SIZE),
     Item(FILETAG_RCP_BOOTLOADER, |b.bootloader|),
     Item(FILETAG_RCP_PARTITION_TABLE, |b.partitionTable|),
     Item(FILETAG_RCP_FIRMWARE, |b.firmware|)]
    + if b.brFirmware.Some? then [Item(FILETAG_BR_OTA_IMAGE, |b.brFirmware.value|)] else []
  }

  /** The line the generator skips aside. */
  function Lines(b: Build): seq<Line>
    requires b.flashArgs != []
  {
    b.flashArgs[1..]
  }

  /** Every size and offset fits its word, and every line of flash_args is as it should be. */
  predicate Buildable(b: Build, number: string -> Option<int>) {
    AllPackable(Items(b), |Items(b)|) && b.flashArgs != [] && GoodLines(Lines(b), number)
  }

  /** Subfile contents by tag. */
  function Contents(b: Build, number: string -> Option<int>): (cs: seq<seq<byte>>)
    requires b.flashArgs != [] && GoodLines(Lines(b), number)
    ensures |cs| + 1 == |Items(b)|
  {
    [b.version, FlashBytes(Lines(b), number), b.bootloader, b.partitionTable, b.firmware]
    + if b.brFirmware.Some? then [b.brFirmware.value] else []
  }

  function Image(b: Build, number: string -> Option<int>): seq<byte>
    requires b.flashArgs != [] && GoodLines(Lines(b), number)
  {
    Table(Items(b), |Items(b)|) + Flatten(Contents(b, number))
  }

  /** One call of append_subfile_header, as the next entry of the table. */
  method AppendEntry(fout: OutFile, tag: nat, size: nat, offset: nat, ghost items: seq<Item>, ghost i: nat)
    returns (next: Option<nat>)
    requires i < |items| && items[i] == Item(tag, size) && offset == Total(items[..i])
    requires fout.data == Table(items, i) && AllPackable(items, i)
    modifies fout
    ensures next.Some? <==> AllPackable(items, i + 1)
    ensures next.Some? ==> next.value == Total(items[..i + 1]) && fout.data == Table(items, i + 1)
  {
    next := AppendSubfileHeader(fout, tag, size, offset);
    NextOffset(items, i);
    assert EntryOf(items, i) == Entry(tag, size, offset);
  }

  /** The header's part of main. */
  method WriteTable(fout: OutFile, b: Build) returns (ok: bool)
    requires fout.data == []
    modifies fout
    ensures ok <==> AllPackable(Items(b), |Items(b)|)
    ensures ok ==> fout.data == Table(Items(b), |Items(b)|)
  {
    ghost var items := Items(b);
    var imageHeaderSize := RCP_IMAGE_HEADER_SIZE;
    if b.brFirmware.Some? {
      imageHeaderSize := imageHeaderSize + HEADER_ENTRY_SIZE;
    }
    var offset := AppendEntry(fout, FILETAG_IMAGE_HEADER, imageHeaderSize, 0, items, 0);
    if offset.None? { return false; }
    offset := AppendEntry(fout, FILETAG_RCP_VERSION, |b.version|, offset.value, items, 1);
    if offset.None? { return false; }
    offset := AppendEntry(fout, FILETAG_RCP_FLASH_ARGS, RCP_FLASH_ARGS_SIZE, offset.value, items, 2);
    if offset.None? { return false; }
    offset := AppendEntry(fout, FILETAG_RCP_BOOTLOADER, |b.bootloader|, offset.value, items, 3);
    if offset.None? { return false; }
    offset := AppendEntry(fout, FILETAG_RCP_PARTITION_TABLE, |b.partitionTable|, offset.value, items, 4);
    if offset.None? { return false; }
    offset := AppendEntry(fout, FILETAG_RCP_FIRMWARE, |b.firmware|, offset.value, items, 5);
    if offset.None? { return false; }
    if b.brFirmware.Some? {
      offset := AppendEntry(fout, FILETAG_BR_OTA_IMAGE, |b.brFirmware.value|, offset.value, items, 6);
    }
    ok := offset.Some?;
  }

  /** main; false when one of the library calls raises. */
  method CreateImage(b: Build, number: string -> Option<int>) returns (ok: bool, fout: OutFile)
    ensures fresh(fout)
    ensures ok <==> Buildable(b, number)
    ensures ok ==> fout.data == Image(b, number)
  {
    fout := new OutFile();
    ok := WriteTable(fout, b);
    if !ok { return; }
    AppendSubfile(fout, b.version);
    ok := AppendFlashArgs(fout, b.flashArgs, number);
    if !ok { return; }
    AppendSubfile(fout, b.bootloader);
    AppendSubfile(fout, b.partitionTable);
    AppendSubfile(fout, b.firmware);
    if b.brFirmware.Some? {
      AppendSubfile(fout, b.brFirmware.value);
    }
    InARow(Table(Items(b), |Items(b)|), b, number);
  }

  /** The subfiles in the order in which they are written, behind the table. */
  lemma ImageLayout(b: Build, number: string -> Option<int>)
    requires b.flashArgs != [] && GoodLines(Lines(b), number)
    ensures Image(b, number)
         == Table(Items(b), |Items(b)|) + b.version + FlashBytes(Lines(b), number) + b.bootloader
            + b.partitionTable + b.firmware + if b.brFirmware.Some? then b.brFirmware.value else []
  {
    InARow(Table(Items(b), |Items(b)|), b, number);
  }

  /** What the entries say, number by number. */
  lemma EntriesSay(b: Build)
    ensures var items, n := Items(b), if b.brFirmware.Some? then 7 else 6;
            var v, l, p, f := |b.version|, |b.bootloader|, |b.partitionTable|, |b.firmware|;
            && |items| == n
            && EntryOf(items, 0) == Entry(0xff, 12 * n, 0)
            && EntryOf(items, 1) == Entry(0, v, 12 * n)
            && EntryOf(items, 2) == Entry(1, 24, 12 * n + v)
            && EntryOf(items, 3) == Entry(2, l, 12 * n + v + 24)
            && EntryOf(items, 4) == Entry(3, p, 12 * n + v + 24 + l)
            && EntryOf(items, 5) == Entry(4, f, 12 * n + v + 24 + l + p)
            && (b.brFirmware.Some? ==>
                  EntryOf(items, 6) == Entry(5, |b.brFirmware.value|, 12 * n + v + 24 + l + p + f))
  {
    var items := Items(b);
    NextOffset(items, 0);
    NextOffset(items, 1);
    NextOffset(items, 2);
    NextOffset(items, 3);
    NextOffset(items, 4);
    if b.brFirmware.Some? {
      NextOffset(items, 5);
    }
  }

  /** When the build succeeds: the last entry's offset and size fit 32 bits, and flash_args is well formed. */
  lemma BuildableIff(b: Build, number: string -> Option<int>)
    ensures Buildable(b, number)
       <==> && b.flashArgs != [] && GoodLines(b.flashArgs[1..], number)
            && var rcp := |b.version| + 24 + |b.bootloader| + |b.partitionTable|;
               match b.brFirmware {
                 case None => 72 + rcp < 0x1_0000_0000 && |b.firmware| < 0x1_0000_0000
                 case Some(br) => 84 + rcp + |b.firmware| < 0x1_0000_0000 && |br| < 0x1_0000_0000
               }
  {
    EntriesSay(b);
    var items := Items(b);
    assert AllPackable(items, |items|) <==>
           && Packable(EntryOf(items, 0)) && Packable(EntryOf(items, 1)) && Packable(EntryOf(items, 2))
           && Packable(EntryOf(items, 3)) && Packable(EntryOf(items, 4)) && Packable(EntryOf(items, 5))
           && (b.brFirmware.Some? ==> Packable(EntryOf(items, 6)));
  }

  lemma InARow(table: seq<byte>, b: Build, number: string -> Option<int>)
    requires b.flashArgs != [] && GoodLines(Lines(b), number)
    ensures table + Flatten(Contents(b, number))
         == table + b.version + FlashBytes(Lines(b), number) + b.bootloader + b.partitionTable + b.firmware
            + if b.brFirmware.Some? then b.brFirmware.value else []
  {
    var cs := Contents(b, number);
    OneMoreContent(table, cs, 0);
    OneMoreContent(table, cs, 1);
    OneMoreContent(table, cs, 2);
    OneMoreContent(table, cs, 3);
    OneMoreContent(table, cs, 4);
    if b.brFirmware.Some? {
      OneMoreContent(table, cs, 5);
    }
    assert cs[..|cs|] == cs;
  }

  lemma OneMoreContent(front: seq<byte>, cs: seq<seq<byte>>, k: nat)
    requires k < |cs|
    ensures k == 0 ==> front + Flatten(cs[..k]) == front
    ensures front + Flatten(cs[..k + 1]) == front + Flatten(cs[..k]) + cs[k]
  {
    assert cs[..k + 1] == cs[..k] + [cs[k]];
    FlattenSnoc(cs[..k], cs[k]);
  }

  // ------------------------------------------------------------ tiling

  /** The entries lie end to end from 0 to `end`. */
  ghost predicate Tile(items: seq<Item>, end: nat) {
    && items != [] && EntryOf(items, 0).offset == 0
    && (forall i, j | 0 <= i < |items| && j == i + 1 < |items| ::
          EntryOf(items, j).offset == EntryOf(items, i).offset + items[i].size)
    && EntryOf(items, |items| - 1).offset + items[|items| - 1].size == end
  }

  lemma TileToTotal(items: seq<Item>)
    requires items != []
    ensures Tile(items, Total(items))
  {
    forall i, j | 0 <= i < |items| && j == i + 1 < |items|
      ensures EntryOf(items, j).offset == EntryOf(items, i).offset + items[i].size
    {
      NextOffset(items, i);
    }
    NextOffset(items, |items| - 1);
    assert items[..|items|] == items;
  }

  lemma NextOffset(items: seq<Item>, i: nat)
    requires i < |items|
    ensures Total(items[..i + 1]) == Total(items[..i]) + items[i].size
  {
    assert items[..i + 1] == items[..i] + [items[i]];
    TotalSnoc(items[..i], items[i]);
  }

  /** How far the subfiles behind the flash arguments are off, in bytes. */
  function Shift(b: Build, k: nat): int
    requires b.flashArgs != []
  {
    if k >= 2 then 8 * |Lines(b)| - RCP_FLASH_ARGS_SIZE else 0
  }

  /** Where the k-th subfile really begins: k entries of it and of the header precede it. */
  lemma {:induction false} BytesInFront(b: Build, number: string -> Option<int>, k: nat)
    requires b.flashArgs != [] && GoodLines(Lines(b), number) && k <= |Contents(b, number)|
    ensures |Table(Items(b), |Items(b)|)| + |Flatten(Contents(b, number)[..k])|
            == Total(Items(b)[..k + 1]) + Shift(b, k)
    decreases k
  {
    var items, cs := Items(b), Contents(b, number);
    NextOffset(items, k);
    if k > 0 {
      BytesInFront(b, number, k - 1);
      assert cs[..k] == cs[..k - 1] + [cs[k - 1]];
      FlattenSnoc(cs[..k - 1], cs[k - 1]);
    }
  }

  /** The table tiles the whole image exactly when flash_args names three files. */
  lemma TilesIffThreeLines(b: Build, number: string -> Option<int>)
    requires b.flashArgs != [] && GoodLines(Lines(b), number)
    ensures Tile(Items(b), |Image(b, number)|) <==> |Lines(b)| == 3
  {
    TileToTotal(Items(b));
    BytesInFront(b, number, |Contents(b, number)|);
    assert Contents(b, number)[..|Contents(b, number)|] == Contents(b, number);
    assert Items(b)[..|Items(b)|] == Items(b);
  }

  lemma {:induction false} FlattenSlice<T>(front: seq<T>, cs: seq<seq<T>>, k: nat)
    requires k < |cs|
    ensures var from := |front| + |Flatten(cs[..k])|;
            from + |cs[k]| <= |front + Flatten(cs)| && (front + Flatten(cs))[from..from + |cs[k]|] == cs[k]
  {
    assert cs == cs[..k] + ([cs[k]] + cs[k + 1..]);
    FlattenAppend(cs[..k], [cs[k]] + cs[k + 1..]);
    var head, tail := Flatten(cs[..k]), Flatten(cs[k + 1..]);
    assert Flatten([cs[k]] + cs[k + 1..]) == cs[k] + tail;
    assert front + Flatten(cs) == (front + head) + (cs[k] + tail);
  }

  /** Every subfile is found where its entry says, give or take the shift. */
  lemma SubfileAt(b: Build, number: string -> Option<int>, tag: nat)
    requires b.flashArgs != [] && GoodLines(Lines(b), number) && tag < |Contents(b, number)|
    ensures var from, c := EntryOf(Items(b), tag + 1).offset + Shift(b, tag), Contents(b, number)[tag];
            0 <= from <= from + |c| <= |Image(b, number)| && Image(b, number)[from..from + |c|] == c
  {
    BytesInFront(b, number, tag);
    FlattenSlice(Table(Items(b), |Items(b)|), Contents(b, number), tag);
  }

  // ------------------------------------------------------------ seek_to_subfile

  function EntryAt(image: seq<byte>, i: nat): Option<Entry> {
    var from, to := i * HEADER_ENTRY_SIZE, (i + 1) * HEADER_ENTRY_SIZE;
    if to <= |image| then Some(Unpack(image[from..to])) else None
  }

  /** The search from entry i on, out of n. */
  function SeekFrom(image: seq<byte>, tag: nat, i: nat, n: nat): Result<Entry>
    decreases n - i
  {
    if i >= n then Err(ESP_ERR_NOT_FOUND)
    else match EntryAt(image, i)
      case None => Err(ESP_FAIL)
      case Some(e) => if e.tag == tag then Ok(e) else SeekFrom(image, tag, i + 1, n)
  }

  function Seek(image: seq<byte>, tag: nat): Result<Entry> {
    match EntryAt(image, 0)
    case None => Err(ESP_FAIL)
    case Some(e) =>
      if e.tag != FILETAG_IMAGE_HEADER || e.size % HEADER_ENTRY_SIZE != 0 then Err(ESP_FAIL)
      else SeekFrom(image, tag, 1, e.size / HEADER_ENTRY_SIZE)
  }

  method SeekToSubfile(fp: InFile, tag: nat) returns (r: Result<Entry>)
    modifies fp
    ensures r == Seek(fp.content, tag)
    ensures r.Ok? ==> fp.pos == r.value.offset
  {
    fp.pos := 0;
    var b := fp.Read(HEADER_ENTRY_SIZE);
    if |b| != HEADER_ENTRY_SIZE {
      return Err(ESP_FAIL);
    }
    var info := Unpack(b);
    if info.tag != FILETAG_IMAGE_HEADER || info.size % HEADER_ENTRY_SIZE != 0 {
      return Err(ESP_FAIL);
    }
    var numSubfiles := info.size / HEADER_ENTRY_SIZE;
    var i := 1;
    while i < numSubfiles
      invariant fp.pos == i * HEADER_ENTRY_SIZE
      invariant Seek(fp.content, tag) == SeekFrom(fp.content, tag, i, numSubfiles)
      decreases numSubfiles - i
    {
      b := fp.Read(HEADER_ENTRY_SIZE);
      if |b| != HEADER_ENTRY_SIZE {
        return Err(ESP_FAIL);
      }
      info := Unpack(b);
      if info.tag == tag {
        fp.pos := info.offset;
        return Ok(info);
      }
      i := i + 1;
    }
    r := Err(ESP_ERR_NOT_FOUND);
  }

  /** The i-th table entry's tag, as it stands in the file. */
  function TagAt(image: seq<byte>, i: nat): nat
    requires 12 * i + 12 <= |image|
  {
    LeValue(image[12 * i..12 * i + 4])
  }

  /** The search has come to entry i: those before it are complete and carry other tags. */
  predicate PassedTo(image: seq<byte>, tag: nat, i: nat) {
    12 * i <= |image| && forall j | 1 <= j < i :: TagAt(image, j) != tag
  }

  /** The first word is the header's tag, and the second one the table's size, whole entries. */
  predicate HasTable(image: seq<byte>) {
    |image| >= 12 && TagAt(image, 0) == 0xff && LeValue(image[4..8]) % 12 == 0
  }

  /** From entry i on, with the ones before it passed. */
  lemma {:induction false} SeekFromMeans(image: seq<byte>, tag: nat, i: nat, n: nat)
    requires 1 <= i && PassedTo(image, tag, i)
    ensures match SeekFrom(image, tag, i, n)
            case Ok(e) => exists j :: && i <= j < n && PassedTo(image, tag, j) && 12 * j + 12 <= |image|
                                      && TagAt(image, j) == tag && e == Unpack(image[12 * j..12 * j + 12])
            case Err(code) =>
              if code == ESP_ERR_NOT_FOUND then i >= n || PassedTo(image, tag, n)
              else code == ESP_FAIL && exists j :: i <= j < n && PassedTo(image, tag, j) && |image| < 12 * j + 12
    decreases n - i
  {
    if i < n {
      if 12 * i + 12 <= |image| {
        var b := image[12 * i..12 * i + 12];
        assert b[..4] == image[12 * i..12 * i + 4];
        EntryLayout(Unpack(b), b);
        if Unpack(b).tag != tag {
          SeekFromMeans(image, tag, i + 1, n);
        }
      }
    }
  }

  /**
   * The search on any file: the first entry of the tag behind the header; a
   * failure when the header is damaged or the file ends before the entry is
   * found; and not found when the whole table was read.
   */
  lemma SeekMeans(image: seq<byte>, tag: nat)
    ensures match Seek(image, tag)
            case Ok(e) =>
              && HasTable(image)
              && exists j :: && 1 <= j < LeValue(image[4..8]) / 12 && PassedTo(image, tag, j) && 12 * j + 12 <= |image|
                             && TagAt(image, j) == tag && e == Unpack(image[12 * j..12 * j + 12])
            case Err(code) =>
              if !HasTable(image) then code == ESP_FAIL
              else
                var n := LeValue(image[4..8]) / 12;
                if n <= 1 || PassedTo(image, tag, n) then code == ESP_ERR_NOT_FOUND
                else code == ESP_FAIL && exists j :: 1 <= j < n && PassedTo(image, tag, j) && |image| < 12 * j + 12
  {
    if |image| >= 12 {
      var b := image[0..12];
      assert b[..4] == image[0..4] && b[4..8] == image[4..8];
      EntryLayout(Unpack(b), b);
      SeekFromMeans(image, tag, 1, LeValue(image[4..8]) / 12);
    }
  }

  lemma EntriesReadBack(b: Build, number: string -> Option<int>, i: nat)
    requires Buildable(b, number) && i < |Items(b)|
    ensures EntryAt(Image(b, number), i) == Some(EntryOf(Items(b), i))
  {
    var items := Items(b);
    TableSlice(items, |items|, i);
    var from, to := i * HEADER_ENTRY_SIZE, (i + 1) * HEADER_ENTRY_SIZE;
    assert Image(b, number)[from..to] == Table(items, |items|)[from..to];
    UnpackPack(EntryOf(items, i));
  }

  lemma {:induction false} SeekWalks(b: Build, number: string -> Option<int>, tag: nat, i: nat)
    requires Buildable(b, number) && 1 <= i <= |Items(b)| && i <= tag + 1
    ensures SeekFrom(Image(b, number), tag, i, |Items(b)|)
         == if tag + 1 < |Items(b)| then Ok(EntryOf(Items(b), tag + 1)) else Err(ESP_ERR_NOT_FOUND)
    decreases |Items(b)| - i
  {
    if i < |Items(b)| {
      EntriesReadBack(b, number, i);
      assert Items(b)[i].tag == i - 1;
      if i < tag + 1 {
        SeekWalks(b, number, tag, i + 1);
      }
    }
  }

  lemma SeekFindsEntry(b: Build, number: string -> Option<int>, tag: nat)
    requires Buildable(b, number)
    ensures Seek(Image(b, number), tag)
         == if tag < |Contents(b, number)| then Ok(EntryOf(Items(b), tag + 1)) else Err(ESP_ERR_NOT_FOUND)
  {
    EntriesReadBack(b, number, 0);
    assert EntryOf(Items(b), 0) == Entry(FILETAG_IMAGE_HEADER, |Items(b)| * HEADER_ENTRY_SIZE, 0);
    SeekWalks(b, number, tag, 1);
  }

  /** With three flash arguments the device reads back every subfile the generator was given, and no other. */
  lemma SeekReadsSubfile(b: Build, number: string -> Option<int>, tag: nat)
    requires Buildable(b, number) && |Lines(b)| == 3
    ensures var r := Seek(Image(b, number), tag);
            if tag < |Contents(b, number)| then
              r.Ok? && ReadAt(Image(b, number), r.value.offset, r.value.size) == Contents(b, number)[tag]
            else r == Err(ESP_ERR_NOT_FOUND)
  {
    SeekFindsEntry(b, number, tag);
    if tag < |Contents(b, number)| {
      SubfileAt(b, number, tag);
      SizesAsDeclared(b, number, tag);
    }
  }

  /** The same, tag by tag. */
  lemma EachTagReads(b: Build, number: string -> Option<int>)
    requires Buildable(b, number) && |Lines(b)| == 3
    ensures ReadsAs(Image(b, number), 0, b.version)
    ensures ReadsAs(Image(b, number), 1, FlashBytes(Lines(b), number))
    ensures ReadsAs(Image(b, number), 2, b.bootloader)
    ensures ReadsAs(Image(b, number), 3, b.partitionTable)
    ensures ReadsAs(Image(b, number), 4, b.firmware)
    ensures if b.brFirmware.Some? then ReadsAs(Image(b, number), 5, b.brFirmware.value)
            else Seek(Image(b, number), 5) == Err(ESP_ERR_NOT_FOUND)
  {
    SeekReadsSubfile(b, number, 0);
    SeekReadsSubfile(b, number, 1);
    SeekReadsSubfile(b, number, 2);
    SeekReadsSubfile(b, number, 3);
    SeekReadsSubfile(b, number, 4);
    SeekReadsSubfile(b, number, 5);
  }

  predicate ReadsAs(image: seq<byte>, tag: nat, content: seq<byte>) {
    var r := Seek(image, tag);
    r.Ok? && ReadAt(image, r.value.offset, r.value.size) == content
  }

  lemma SizesAsDeclared(b: Build, number: string -> Option<int>, tag: nat)
    requires b.flashArgs != [] && GoodLines(Lines(b), number) && tag < |Contents(b, number)|
    ensures |Contents(b, number)[tag]| == Items(b)[tag + 1].size <==> tag != FILETAG_RCP_FLASH_ARGS || |Lines(b)| == 3
  {
  }

  // ------------------------------------------------------------ what the update flashes

  datatype Flash = Flash(address: nat, data: seq<byte>)

  /** The i-th binary esp_rcp_update writes, and where to. */
  function Flashed(image: seq<byte>, i: nat): Option<Flash> {
    match Seek(image, FILETAG_RCP_FLASH_ARGS)
    case Err(_) => None
    case Ok(args) =>
      if i >= args.size / 8 then None
      else
        var tag := LeValue(ReadAt(image, args.offset + 8 * i, 4));
        var address := LeValue(ReadAt(image, args.offset + 8 * i + 4, 4));
        match Seek(image, tag)
        case Err(_) => None
        case Ok(e) => Some(Flash(address, ReadAt(image, e.offset, e.size)))
  }

  /** Each line of flash_args ends up as its file, byte for byte, at its address. */
  lemma FlashedAsBuilt(b: Build, number: string -> Option<int>, i: nat)
    requires Buildable(b, number) && |Lines(b)| == 3
    ensures Flashed(Image(b, number), i)
         == if i >= 3 then None
            else var arg := ArgOf(Lines(b)[i], number); Some(Flash(arg.address, Contents(b, number)[arg.tag]))
  {
    SeekFindsEntry(b, number, FILETAG_RCP_FLASH_ARGS);
    assert EntryOf(Items(b), 2).size == RCP_FLASH_ARGS_SIZE;
    if i < 3 {
      ArgReadBack(b, number, i);
      SeekReadsSubfile(b, number, ArgOf(Lines(b)[i], number).tag);
    }
  }

  /** The file a line names by its path. */
  ghost function FileOf(b: Build, path: string): seq<byte> {
    if Occurs("bootloader", path) then b.bootloader
    else if Occurs("partition_table", path) then b.partitionTable
    else b.firmware
  }

  /** The device flashes three files: each one a line names, byte for byte, to the address the line gives. */
  lemma NamedFilesAreFlashed(b: Build, number: string -> Option<int>, i: nat)
    requires Buildable(b, number) && |Lines(b)| == 3
    ensures i < 3 ==>
              var line := b.flashArgs[1 + i];
              Flashed(Image(b, number), i) == Some(Flash(number(line[0]).value, FileOf(b, line[1])))
    ensures i >= 3 ==> Flashed(Image(b, number), i) == None
  {
    FlashedAsBuilt(b, number, i);
    if i < 3 {
      ContainsIff(Lines(b)[i][1], "bootloader");
      ContainsIff(Lines(b)[i][1], "partition_table");
    }
  }

  lemma SliceOfSlice<T>(s: seq<T>, a: nat, b: nat, i: nat, j: nat)
    requires a <= b <= |s| && i <= j <= b - a
    ensures s[a..b][i..j] == s[a + i..a + j]
  {
    var t := s[a..b];
    assert forall k | 0 <= k < |t| :: t[k] == s[a + k];
    assert forall k | 0 <= k < j - i :: t[i..j][k] == s[a + i..a + j][k];
  }

  lemma ArgInImage(b: Build, number: string -> Option<int>, i: nat)
    requires Buildable(b, number) && |Lines(b)| == 3 && i < 3
    ensures var image, at := Image(b, number), EntryOf(Items(b), 2).offset + 8 * i;
            at + 8 <= |image| && image[at..at + 8] == ArgBytes(ArgOf(Lines(b)[i], number))
  {
    var from, bytes := EntryOf(Items(b), 2).offset, FlashBytes(Lines(b), number);
    SubfileAt(b, number, FILETAG_RCP_FLASH_ARGS);
    FlashBytesAt(Lines(b), number, i);
    SliceOfSlice(Image(b, number), from, from + |bytes|, 8 * i, 8 * i + 8);
  }

  lemma ArgReadBack(b: Build, number: string -> Option<int>, i: nat)
    requires Buildable(b, number) && |Lines(b)| == 3 && i < 3
    ensures var image, args, arg := Image(b, number), EntryOf(Items(b), 2), ArgOf(Lines(b)[i], number);
            && LeValue(ReadAt(image, args.offset + 8 * i, 4)) == arg.tag
            && LeValue(ReadAt(image, args.offset + 8 * i + 4, 4)) == arg.address
  {
    ArgInImage(b, number, i);
    ReadArg(Image(b, number), EntryOf(Items(b), 2).offset + 8 * i, ArgOf(Lines(b)[i], number));
  }

  lemma ReadArg(image: seq<byte>, at: nat, arg: FlashArg)
    requires at + 8 <= |image| && image[at..at + 8] == ArgBytes(arg) && arg.tag < TWO32 && arg.address < TWO32
    ensures LeValue(ReadAt(image, at, 4)) == arg.tag && LeValue(ReadAt(image, at + 4, 4)) == arg.address
  {
    SliceOfSlice(image, at, at + 8, 0, 4);
    SliceOfSlice(image, at, at + 8, 4, 8);
    WordRoundTrip(arg.tag);
    WordRoundTrip(arg.address);
  }
}
