/** Writing a gettext MO file, and reading it back as section 10.3 of the GNU gettext manual says. */
module MoFile {
  import opened Wrappers
  import opened Utf8
  import opened Layout

  const MAGIC := 0x950412DE
  const INT_LIMIT := 0x8000_0000
  const UINT_LIMIT := 0x1_0000_0000
  const HEADER_SIZE := 28

  type Catalog = map<Text, Text>

  // ---------- 32 bit words ----------

  /** struct.pack uses the byte order of the machine, which readers tell from the magic number. */
  datatype ByteOrder = Little | Big

  function Pack(v: nat, order: ByteOrder): (r: Bytes)
    requires v < UINT_LIMIT
    ensures |r| == 4
  {
    Digits(v, 4, order)
  }

  function Unpack(b: Bytes, order: ByteOrder): nat {
    Value(b, order)
  }

  /** The last n base 256 digits of a number, least or most significant first. */
  function Digits(v: nat, n: nat, order: ByteOrder): (r: Bytes)
    ensures |r| == n
    decreases v, n
  {
    if n == 0 then []
    else if order.Little? then [v % 256] + Digits(v / 256, n - 1, order)
    else Digits(v / 256, n - 1, order) + [v % 256]
  }

  function Value(b: Bytes, order: ByteOrder): nat {
    if b == [] then 0
    else if order.Little? then b[0] as int + 256 * Value(b[1..], order)
    else 256 * Value(b[..|b| - 1], order) + b[|b| - 1] as int
  }

  function Power(n: nat): nat {
    if n == 0 then 1 else 256 * Power(n - 1)
  }

  lemma {:induction false} ValueDigits(v: nat, n: nat, order: ByteOrder)
    requires v < Power(n)
    ensures Value(Digits(v, n, order), order) == v
  {
    if n > 0 {
      assert v / 256 < Power(n - 1);
      ValueDigits(v / 256, n - 1, order);
      var d := Digits(v, n, order);
      var rest := Digits(v / 256, n - 1, order);
      if order.Little? { assert d[1..] == rest; } else { assert d[..|d| - 1] == rest; }
    }
  }

  lemma UnpackPack(v: nat, order: ByteOrder)
    requires v < UINT_LIMIT
    ensures Unpack(Pack(v, order), order) == v
  {
    assert Power(4) == 256 * Power(3) == 65536 * Power(2) == 16777216 * Power(1) == UINT_LIMIT;
    ValueDigits(v, 4, order);
  }

  // ---------- the layout ----------

  function Terminated(ms: seq<Bytes>): (r: seq<Bytes>)
    ensures |r| == |ms| && forall i {:trigger r[i]} :: 0 <= i < |r| ==> r[i] == ms[i] + [0]
  {
    seq(|ms|, i requires 0 <= i < |ms| => ms[i] + [0])
  }

  function Blob(ms: seq<Bytes>): Bytes {
    Flat(Terminated(ms))
  }

  /** Where the i-th string starts when the blob starts at `from`. */
  function Offset(ms: seq<Bytes>, from: nat, i: nat): nat
    requires i <= |ms|
  {
    from + Start(Terminated(ms), i)
  }

  predicate TableFits(ms: seq<Bytes>, from: nat) {
    forall i :: 0 <= i < |ms| ==> EntryFits(ms, from, i)
  }

  predicate EntryFits(ms: seq<Bytes>, from: nat, i: nat) {
    i < |ms| && |ms[i]| < UINT_LIMIT && Offset(ms, from, i) < UINT_LIMIT
  }

  function Entry(len: nat, at: nat, order: ByteOrder): (r: Bytes)
    requires len < UINT_LIMIT && at < UINT_LIMIT
    ensures |r| == 8
  {
    Pack(len, order) + Pack(at, order)
  }

  function EntryOf(ms: seq<Bytes>, from: nat, order: ByteOrder, i: nat): (r: Bytes)
    requires EntryFits(ms, from, i)
    ensures |r| == 8
  {
    Entry(|ms[i]|, Offset(ms, from, i), order)
  }

  function Entries(ms: seq<Bytes>, from: nat, order: ByteOrder): (r: seq<Bytes>)
    requires TableFits(ms, from)
    ensures |r| == |ms| && forall i {:trigger r[i]} :: 0 <= i < |r| ==> r[i] == EntryOf(ms, from, order, i)
  {
    seq(|ms|, i requires 0 <= i < |ms| => EntryOf(ms, from, order, i))
  }

  function Table(ms: seq<Bytes>, from: nat, order: ByteOrder): Bytes
    requires TableFits(ms, from)
  {
    Flat(Entries(ms, from, order))
  }

  function OriginalsAt(n: nat): nat { HEADER_SIZE + 16 * n }
  function TranslationsAt(ids: seq<Bytes>): nat { OriginalsAt(|ids|) + |Blob(ids)| }

  /** Exactly when no struct.pack call is given a number out of range. */
  predicate Fits(ids: seq<Bytes>, strings: seq<Bytes>) {
    && HEADER_SIZE + 8 * |ids| < INT_LIMIT
    && TableFits(ids, OriginalsAt(|ids|))
    && TableFits(strings, TranslationsAt(ids))
  }

  function Header(n: nat, order: ByteOrder): (r: Bytes)
    requires HEADER_SIZE + 8 * n < INT_LIMIT
    ensures |r| == HEADER_SIZE
  {
    Pack(MAGIC, order) + Pack(0, order) + Pack(n, order) + Pack(HEADER_SIZE, order)
    + Pack(HEADER_SIZE + 8 * n, order) + Pack(0, order) + Pack(0, order)
  }

  /** The file: header, two tables, two blobs. */
  function File(ids: seq<Bytes>, strings: seq<Bytes>, order: ByteOrder): Bytes
    requires Fits(ids, strings)
  {
    Header(|ids|, order) + Table(ids, OriginalsAt(|ids|), order) + Table(strings, TranslationsAt(ids), order)
    + Blob(ids) + Blob(strings)
  }

  // ---------- sorting ----------

  predicate Ascending(keys: seq<seq<int>>) {
    forall i, j :: 0 <= i < j < |keys| ==> Less(keys[i], keys[j])
  }

  /** The sorted key list of a catalog, and the translations in that order. */
  ghost predicate SortedKeys(keys: seq<Text>, catalog: Catalog) {
    && Ascending(keys)
    && (forall k :: k in keys <==> k in catalog)
  }

  /** There is only one such list. */
  lemma {:induction false} SortedKeysUnique(a: seq<Text>, b: seq<Text>, catalog: Catalog)
    requires SortedKeys(a, catalog) && SortedKeys(b, catalog)
    ensures a == b
  {
    NoKeys(a, catalog);
    NoKeys(b, catalog);
    if a != [] {
      assert a[0] in a && b[0] in b;
      var i :| 0 <= i < |b| && b[i] == a[0];
      var j :| 0 <= j < |a| && a[j] == b[0];
      if i > 0 && j > 0 { LessTrans(a[0], b[0], a[0]); }
      LessIrreflexive(a[0]);
      assert a[0] == b[0];
      RestSorted(a, catalog);
      RestSorted(b, catalog);
      SortedKeysUnique(a[1..], b[1..], map k | k in catalog && k != a[0] :: catalog[k]);
    }
  }

  lemma NoKeys(a: seq<Text>, catalog: Catalog)
    requires SortedKeys(a, catalog)
    ensures a == [] <==> catalog.Keys == {}
  {
    if a != [] { assert a[0] in a; }
    if catalog.Keys != {} {
      var k :| k in catalog;
      assert k in a;
    }
  }

  lemma RestSorted(a: seq<Text>, catalog: Catalog)
    requires a != [] && SortedKeys(a, catalog)
    ensures SortedKeys(a[1..], map k | k in catalog && k != a[0] :: catalog[k])
  {
    var rest := map k | k in catalog && k != a[0] :: catalog[k];
    LessIrreflexive(a[0]);
    forall k ensures k in a[1..] <==> k in rest {
      if k in a[1..] {
        var i :| 0 <= i < |a[1..]| && a[1..][i] == k;
        assert a[i + 1] == k;
      }
      if k in rest {
        var i :| 0 <= i < |a| && a[i] == k;
        assert a[1..][i - 1] == k;
      }
    }
  }

  function EncodeAll(ts: seq<Text>): (r: seq<Bytes>)
    ensures |r| == |ts| && forall i {:trigger r[i]} :: 0 <= i < |r| ==> r[i] == Encode(ts[i])
  {
    seq(|ts|, i requires 0 <= i < |ts| => Encode(ts[i]))
  }

  function Translations(keys: seq<Text>, catalog: Catalog): (r: seq<Text>)
    requires forall k :: k in keys ==> k in catalog
    ensures |r| == |keys| && forall i {:trigger r[i]} :: 0 <= i < |r| ==> r[i] == catalog[keys[i]]
  {
    seq(|keys|, i requires 0 <= i < |keys| => catalog[keys[i]])
  }

  // ---------- the writer ----------

  method Smallest(keys: set<Text>) returns (k: Text)
    requires keys != {}
    ensures k in keys && forall j :: j in keys && j != k ==> Less(k, j)
  {
    k :| k in keys;
    var rest := keys - {k};
    while rest != {}
      invariant k in keys && rest <= keys
      invariant forall j :: j in keys && j !in rest && j != k ==> Less(k, j)
      decreases rest
    {
      var j :| j in rest;
      if Less(j, k) {
        forall i | i in keys && i !in rest - {j} && i != j ensures Less(j, i) {
          if i != k { LessTrans(j, k, i); }
        }
        k := j;
      } else {
        LessTotal(j, k);
      }
      rest := rest - {j};
    }
  }

  method Sort(catalog: Catalog) returns (keys: seq<Text>)
    ensures SortedKeys(keys, catalog)
  {
    var rest := catalog.Keys;
    keys := [];
    while rest != {}
      invariant rest <= catalog.Keys && Ascending(keys)
      invariant forall k :: k in keys <==> k in catalog && k !in rest
      invariant forall k, j :: k in keys && j in rest ==> Less(k, j)
      decreases rest
    {
      var k := Smallest(rest);
      keys := keys + [k];
      rest := rest - {k};
    }
  }

  ghost predicate IsEntry(e: Bytes, ms: seq<Bytes>, from: nat, order: ByteOrder, i: nat) {
    EntryFits(ms, from, i) && e == EntryOf(ms, from, order, i)
  }

  /** The first entries of a table. */
  ghost predicate AreEntries(entries: seq<Bytes>, ms: seq<Bytes>, from: nat, order: ByteOrder) {
    |entries| <= |ms| && forall j :: 0 <= j < |entries| ==> IsEntry(entries[j], ms, from, order, j)
  }

  lemma {:induction false} AnotherEntry(entries: seq<Bytes>, e: Bytes, ms: seq<Bytes>, from: nat, order: ByteOrder)
    requires AreEntries(entries, ms, from, order) && IsEntry(e, ms, from, order, |entries|)
    ensures AreEntries(entries + [e], ms, from, order) && Flat(entries + [e]) == Flat(entries) + e
  {
    assert (entries + [e])[..|entries|] == entries;
  }

  lemma {:induction false} AllEntries(entries: seq<Bytes>, ms: seq<Bytes>, from: nat, order: ByteOrder)
    requires AreEntries(entries, ms, from, order) && |entries| == |ms|
    ensures TableFits(ms, from) && Flat(entries) == Table(ms, from, order)
  {
    forall j | 0 <= j < |ms| ensures EntryFits(ms, from, j) && entries[j] == EntryOf(ms, from, order, j) {
      assert IsEntry(entries[j], ms, from, order, j);
    }
    assert entries == Entries(ms, from, order);
  }

  method BuildTable(ms: seq<Bytes>, from: nat, order: ByteOrder) returns (r: Option<Bytes>)
    ensures r.Some? <==> TableFits(ms, from)
    ensures r.Some? ==> r.value == Table(ms, from, order)
  {
    var out: Bytes, current := [], from;
    ghost var entries: seq<Bytes> := [];
    for i := 0 to |ms|
      invariant current == Offset(ms, from, i)
      invariant |entries| == i && AreEntries(entries, ms, from, order) && out == Flat(entries)
    {
      if |ms[i]| >= UINT_LIMIT || current >= UINT_LIMIT {
        assert !EntryFits(ms, from, i);
        return None;
      }
      var entry := Entry(|ms[i]|, current, order);
      AnotherEntry(entries, entry, ms, from, order);
      entries := entries + [entry];
      out := out + entry;
      StringsTile(ms, from, i);
      current := current + |ms[i]| + 1;
    }
    AllEntries(entries, ms, from, order);
    r := Some(out);
  }

  method JoinStrings(ms: seq<Bytes>) returns (r: Bytes)
    ensures r == Blob(ms)
  {
    r := [];
    ghost var parts := Terminated(ms);
    for i := 0 to |ms|
      invariant r == Flat(parts[..i])
    {
      assert parts[..i + 1][..i] == parts[..i];
      r := r + (ms[i] + [0]);
    }
    assert parts[..|ms|] == parts;
  }

  /** The two tables, or None when struct.pack refuses a number. */
  method BuildTables(ids: seq<Bytes>, from: nat, strings: seq<Bytes>, next: nat, order: ByteOrder)
    returns (r: Option<Bytes>)
    ensures r.Some? <==> TableFits(ids, from) && TableFits(strings, next)
    ensures r.Some? ==> r.value == Table(ids, from, order) + Table(strings, next, order)
  {
    var originals := BuildTable(ids, from, order);
    if originals.None? { return None; }
    var translations := BuildTable(strings, next, order);
    if translations.None? { return None; }
    r := Some(originals.value + translations.value);
  }

  method Assemble(ids: seq<Bytes>, strings: seq<Bytes>, order: ByteOrder) returns (file: Option<Bytes>)
    requires |ids| == |strings|
    ensures file.Some? <==> Fits(ids, strings)
    ensures file.Some? ==> file.value == File(ids, strings, order)
  {
    var idsBlob := JoinStrings(ids);
    var stringsBlob := JoinStrings(strings);
    if HEADER_SIZE + 8 * |ids| >= INT_LIMIT { return None; }
    var tables := BuildTables(ids, OriginalsAt(|ids|), strings, OriginalsAt(|ids|) + |idsBlob|, order);
    if tables.None? { return None; }
    file := Some(Header(|ids|, order) + tables.value + idsBlob + stringsBlob);
  }

  /** _build_mo_file. It fails, with struct.error, exactly when a count, length or offset does not fit its field. */
  method BuildMoFile(catalog: Catalog, order: ByteOrder) returns (keys: seq<Text>, file: Option<Bytes>)
    ensures SortedKeys(keys, catalog)
    ensures file.Some? <==> Fits(EncodeAll(keys), EncodeAll(Translations(keys, catalog)))
    ensures file.Some? ==> file.value == File(EncodeAll(keys), EncodeAll(Translations(keys, catalog)), order)
  {
    keys := Sort(catalog);
    file := Assemble(EncodeAll(keys), EncodeAll(Translations(keys, catalog)), order);
  }

  // ---------- the reader ----------

  function ReadWord(file: Bytes, at: nat, order: ByteOrder): Option<nat> {
    if at + 4 <= |file| then Some(Unpack(file[at..at + 4], order)) else None
  }

  /** The i-th string of a table: a length, an offset, and a NUL after the string. */
  function ReadString(file: Bytes, table: nat, i: nat, order: ByteOrder): Option<Bytes> {
    var len := ReadWord(file, table + 8 * i, order);
    var at := ReadWord(file, table + 8 * i + 4, order);
    if len.None? || at.None? || at.value + len.value >= |file| || file[at.value + len.value] != 0 then None
    else Some(file[at.value..at.value + len.value])
  }

  /** The same string as a C program reads it: from its offset up to the first NUL. */
  function ReadCString(file: Bytes, at: nat): Bytes
    decreases |file| - at
  {
    if at >= |file| || file[at] == 0 then [] else [file[at]] + ReadCString(file, at + 1)
  }

  function ReadEntries(file: Bytes, table: nat, n: nat, order: ByteOrder): (r: seq<Option<Bytes>>)
    ensures |r| == n && forall i {:trigger r[i]} :: 0 <= i < n ==> r[i] == ReadString(file, table, i, order)
  {
    seq(n, i requires 0 <= i < n => ReadString(file, table, i, order))
  }

  function ReadStrings(file: Bytes, table: nat, n: nat, order: ByteOrder): Option<seq<Bytes>> {
    AllSome(ReadEntries(file, table, n, order))
  }

  /** The byte order is the one in which the magic number reads right; the major revision must be 0 or 1. */
  function ReadOrder(file: Bytes): Option<ByteOrder> {
    if ReadWord(file, 0, Little) == Some(MAGIC) then Some(Little)
    else if ReadWord(file, 0, Big) == Some(MAGIC) then Some(Big)
    else None
  }

  /**
   * A reader that searches the table of originals. It refuses a file whose hash table has a size other than zero:
   * such a file is to be searched through that table.
   */
  function ReadMoFile(file: Bytes): Option<(seq<Bytes>, seq<Bytes>)> {
    var order := ReadOrder(file);
    if |file| < HEADER_SIZE || order.None? then None
    else
      var revision := Unpack(file[4..8], order.value);
      var n := Unpack(file[8..12], order.value);
      var originals := Unpack(file[12..16], order.value);
      var translations := Unpack(file[16..20], order.value);
      var hashSize := Unpack(file[20..24], order.value);
      if revision / 65536 > 1 || hashSize != 0 then None
      else
        var ids := ReadStrings(file, originals, n, order.value);
        var strings := ReadStrings(file, translations, n, order.value);
        if ids.None? || strings.None? then None else Some((ids.value, strings.value))
  }

  function DecodeEach(bs: seq<Bytes>): (r: seq<Option<Text>>)
    ensures |r| == |bs| && forall i {:trigger r[i]} :: 0 <= i < |r| ==> r[i] == Decode(bs[i])
  {
    seq(|bs|, i requires 0 <= i < |bs| => Decode(bs[i]))
  }

  function DecodeAll(bs: seq<Bytes>): Option<seq<Text>> {
    AllSome(DecodeEach(bs))
  }

  function PairUp(ids: Option<seq<Text>>, strings: Option<seq<Text>>): Option<Catalog> {
    if ids.None? || strings.None? || |ids.value| != |strings.value| then None
    else Some(Zip(ids.value, strings.value))
  }

  /** Reading a whole catalog: the strings are decoded and paired up. */
  function ReadCatalog(file: Bytes): Option<Catalog> {
    var r := ReadMoFile(file);
    if r.None? then None else PairUp(DecodeAll(r.value.0), DecodeAll(r.value.1))
  }

  // ---------- every part of the file is where its table says ----------

  lemma EntryWords(len: nat, at: nat, order: ByteOrder)
    requires len < UINT_LIMIT && at < UINT_LIMIT
    ensures Unpack(Entry(len, at, order)[..4], order) == len
    ensures Unpack(Entry(len, at, order)[4..], order) == at
  {
    UnpackPack(len, order);
    UnpackPack(at, order);
    assert Entry(len, at, order)[..4] == Pack(len, order) && Entry(len, at, order)[4..] == Pack(at, order);
  }

  /** The two words of entry i of a table that starts after `a`. */
  lemma {:induction false} EntryWithin(a: Bytes, entries: seq<Bytes>, c: Bytes, i: nat, order: ByteOrder)
    requires i < |entries| && forall j :: 0 <= j < |entries| ==> |entries[j]| == 8
    ensures var file := a + Flat(entries) + c;
      && ReadWord(file, |a| + 8 * i, order) == Some(Unpack(entries[i][..4], order))
      && ReadWord(file, |a| + 8 * i + 4, order) == Some(Unpack(entries[i][4..], order))
  {
    var file := a + Flat(entries) + c;
    StartOfEqualParts(entries, 8, i);
    PartWithin(a, entries, c, i);
    var at := |a| + 8 * i;
    assert file[at..at + 4] == file[at..at + 8][..4];
    assert file[at + 4..at + 8] == file[at..at + 8][4..];
  }

  /** The string that a blob holds at the offset its table gives. */
  lemma StringWithin(file: Bytes, p: Bytes, ms: seq<Bytes>, c: Bytes, i: nat)
    requires i < |ms| && file == p + Blob(ms) + c
    ensures Offset(ms, |p|, i) + |ms[i]| < |file|
    ensures file[Offset(ms, |p|, i)..Offset(ms, |p|, i) + |ms[i]|] == ms[i]
    ensures file[Offset(ms, |p|, i) + |ms[i]|] == 0
  {
    var at := Offset(ms, |p|, i);
    PartWithin(p, Terminated(ms), c, i);
    assert file[at..at + |ms[i]|] == file[at..at + |ms[i]| + 1][..|ms[i]|];
    assert file[at + |ms[i]|] == file[at..at + |ms[i]| + 1][|ms[i]|];
  }

  /** The two words of entry i of a table. */
  lemma TableWords(file: Bytes, a: Bytes, ms: seq<Bytes>, from: nat, c: Bytes, i: nat, order: ByteOrder)
    requires i < |ms| && TableFits(ms, from) && file == a + Table(ms, from, order) + c
    ensures ReadWord(file, |a| + 8 * i, order) == Some(|ms[i]|)
    ensures ReadWord(file, |a| + 8 * i + 4, order) == Some(Offset(ms, from, i))
  {
    EntryWithin(a, Entries(ms, from, order), c, i, order);
    assert EntryFits(ms, from, i);
    EntryWords(|ms[i]|, Offset(ms, from, i), order);
  }

  lemma ReadStringIs(file: Bytes, table: nat, i: nat, order: ByteOrder, at: nat, m: Bytes)
    requires ReadWord(file, table + 8 * i, order) == Some(|m|)
    requires ReadWord(file, table + 8 * i + 4, order) == Some(at)
    requires at + |m| < |file| && file[at..at + |m|] == m && file[at + |m|] == 0
    ensures ReadString(file, table, i, order) == Some(m)
  {
  }

  /** The table that starts at `table` describes these strings, the first of which starts at `from`. */
  ghost predicate HasTable(file: Bytes, table: nat, ms: seq<Bytes>, from: nat, order: ByteOrder) {
    forall i :: 0 <= i < |ms| ==> HasEntry(file, table, ms, from, order, i)
  }

  ghost predicate HasEntry(file: Bytes, table: nat, ms: seq<Bytes>, from: nat, order: ByteOrder, i: nat)
    requires i < |ms|
  {
    && ReadWord(file, table + 8 * i, order) == Some(|ms[i]|)
    && ReadWord(file, table + 8 * i + 4, order) == Some(Offset(ms, from, i))
  }

  /** The blob that starts at `from` holds these strings, each followed by a NUL. */
  ghost predicate HasBlob(file: Bytes, ms: seq<Bytes>, from: nat) {
    forall i :: 0 <= i < |ms| ==> HasString(file, ms, from, i)
  }

  ghost predicate HasString(file: Bytes, ms: seq<Bytes>, from: nat, i: nat)
    requires i < |ms|
  {
    var at := Offset(ms, from, i);
    at + |ms[i]| < |file| && file[at..at + |ms[i]|] == ms[i] && file[at + |ms[i]|] == 0
  }

  lemma TableFound(file: Bytes, a: Bytes, ms: seq<Bytes>, from: nat, c: Bytes, order: ByteOrder)
    requires TableFits(ms, from) && file == a + Table(ms, from, order) + c
    ensures HasTable(file, |a|, ms, from, order)
  {
    forall i | 0 <= i < |ms| ensures HasEntry(file, |a|, ms, from, order, i) {
      TableWords(file, a, ms, from, c, i, order);
    }
  }

  lemma BlobFound(file: Bytes, p: Bytes, ms: seq<Bytes>, c: Bytes)
    requires file == p + Blob(ms) + c
    ensures HasBlob(file, ms, |p|)
  {
    forall i | 0 <= i < |ms| ensures HasString(file, ms, |p|, i) {
      StringWithin(file, p, ms, c, i);
    }
  }

  /** A table and its blob are read back, wherever they lie in the file. */
  lemma ReadBack(file: Bytes, table: nat, ms: seq<Bytes>, from: nat, order: ByteOrder)
    requires HasTable(file, table, ms, from, order) && HasBlob(file, ms, from)
    ensures ReadStrings(file, table, |ms|, order) == Some(ms)
  {
    forall i | 0 <= i < |ms| ensures ReadString(file, table, i, order) == Some(ms[i]) {
      assert HasEntry(file, table, ms, from, order, i) && HasString(file, ms, from, i);
      ReadStringIs(file, table, i, order, Offset(ms, from, i), ms[i]);
    }
    AllSomeIs(ReadEntries(file, table, |ms|, order), ms);
  }

  lemma TableLength(ms: seq<Bytes>, from: nat, order: ByteOrder)
    requires TableFits(ms, from)
    ensures |Table(ms, from, order)| == 8 * |ms|
  {
    FlatLength(Entries(ms, from, order));
    StartOfEqualParts(Entries(ms, from, order), 8, |ms|);
  }

  lemma HeaderWords(n: nat, order: ByteOrder)
    requires HEADER_SIZE + 8 * n < INT_LIMIT
    ensures var h := Header(n, order);
      && h[0..4] == Pack(MAGIC, order) && h[4..8] == Pack(0, order) && h[8..12] == Pack(n, order)
      && h[12..16] == Pack(HEADER_SIZE, order) && h[16..20] == Pack(HEADER_SIZE + 8 * n, order)
      && h[20..24] == Pack(0, order) && h[24..28] == Pack(0, order)
  {
  }

  /** A word, byte by byte, in either order. */
  lemma PackIs(v: nat)
    requires v < UINT_LIMIT
    ensures Pack(v, Little) == [v % 256, v / 256 % 256, v / 65536 % 256, v / 16777216]
    ensures Pack(v, Big) == [v / 16777216, v / 65536 % 256, v / 256 % 256, v % 256]
  {
    assert v / 256 / 256 == v / 65536 && v / 65536 / 256 == v / 16777216 && v / 16777216 % 256 == v / 16777216;
    DigitsFour(v, Little);
    DigitsFour(v, Big);
  }

  lemma {:induction false} DigitsFour(v: nat, order: ByteOrder)
    ensures var a, b, c, d := v % 256, v / 256 % 256, v / 256 / 256 % 256, v / 256 / 256 / 256 % 256;
      Digits(v, 4, order) == if order.Little? then [a, b, c, d] else [d, c, b, a]
  {
    var x, y, z := v / 256, v / 256 / 256, v / 256 / 256 / 256;
    assert Digits(z, 1, order) == [z % 256];
    assert Digits(y, 2, order) == if order.Little? then [y % 256, z % 256] else [z % 256, y % 256];
    assert Digits(x, 3, order) ==
        if order.Little? then [x % 256, y % 256, z % 256] else [z % 256, y % 256, x % 256];
  }

  lemma MagicBytes()
    ensures Pack(MAGIC, Big) == [0x95, 0x04, 0x12, 0xDE]
    ensures Unpack([0x95, 0x04, 0x12, 0xDE], Little) != MAGIC
  {
    var b: Bytes := [0x95, 0x04, 0x12, 0xDE];
    assert b[1..] == [0x04, 0x12, 0xDE] && b[1..][1..] == [0x12, 0xDE] && b[1..][1..][1..] == [0xDE];
  }

  lemma OrderIsRecognised(order: ByteOrder)
    ensures Unpack(Pack(MAGIC, order), Little) == MAGIC <==> order.Little?
    ensures Unpack(Pack(MAGIC, order), order) == MAGIC
  {
    UnpackPack(MAGIC, order);
    MagicBytes();
  }

  lemma WordOfHeader(h: Bytes, rest: Bytes, at: nat, v: nat, order: ByteOrder)
    requires at + 4 <= |h| && v < UINT_LIMIT && h[at..at + 4] == Pack(v, order)
    ensures Unpack((h + rest)[at..at + 4], order) == v
  {
    SliceFront(h, rest, at, at + 4);
    UnpackPack(v, order);
  }

  lemma OrderReads(h: Bytes, rest: Bytes, order: ByteOrder)
    requires 4 <= |h| && h[0..4] == Pack(MAGIC, order)
    ensures ReadOrder(h + rest) == Some(order)
  {
    SliceFront(h, rest, 0, 4);
    OrderIsRecognised(order);
  }

  /** Reading a file that starts with the header of n messages. */
  lemma ReadHeader(n: nat, rest: Bytes, order: ByteOrder)
    requires HEADER_SIZE + 8 * n < INT_LIMIT
    ensures var file := Header(n, order) + rest;
      && ReadOrder(file) == Some(order)
      && Unpack(file[4..8], order) == 0
      && Unpack(file[8..12], order) == n
      && Unpack(file[12..16], order) == HEADER_SIZE
      && Unpack(file[16..20], order) == HEADER_SIZE + 8 * n
      && Unpack(file[20..24], order) == 0 && Unpack(file[24..28], order) == 0
  {
    var h := Header(n, order);
    HeaderWords(n, order);
    OrderReads(h, rest, order);
    WordOfHeader(h, rest, 4, 0, order);
    WordOfHeader(h, rest, 8, n, order);
    WordOfHeader(h, rest, 12, HEADER_SIZE, order);
    WordOfHeader(h, rest, 16, HEADER_SIZE + 8 * n, order);
    WordOfHeader(h, rest, 20, 0, order);
    WordOfHeader(h, rest, 24, 0, order);
  }

  lemma ReadMoFileIs(file: Bytes, order: ByteOrder, ids: seq<Bytes>, strings: seq<Bytes>, next: nat)
    requires |file| >= HEADER_SIZE && ReadOrder(file) == Some(order)
    requires Unpack(file[4..8], order) == 0 && Unpack(file[8..12], order) == |ids| == |strings|
    requires Unpack(file[12..16], order) == HEADER_SIZE && Unpack(file[16..20], order) == next
    requires Unpack(file[20..24], order) == 0
    requires ReadStrings(file, HEADER_SIZE, |ids|, order) == Some(ids)
    requires ReadStrings(file, next, |strings|, order) == Some(strings)
    ensures ReadMoFile(file) == Some((ids, strings))
  {
  }

  lemma OriginalsFound(file: Bytes, h: Bytes, t1: Bytes, t2: Bytes, b1: Bytes, b2: Bytes, ids: seq<Bytes>,
                       from: nat, order: ByteOrder)
    requires file == h + t1 + t2 + b1 + b2 && |h + t1 + t2| == from
    requires TableFits(ids, from) && t1 == Table(ids, from, order) && b1 == Blob(ids)
    ensures ReadStrings(file, |h|, |ids|, order) == Some(ids)
  {
    Regroup(h, t1, t2, b1, b2);
    TableFound(file, h, ids, from, t2 + b1 + b2, order);
    BlobFound(file, h + t1 + t2, ids, b2);
    ReadBack(file, |h|, ids, from, order);
  }

  lemma TranslationsFound(file: Bytes, h: Bytes, t1: Bytes, t2: Bytes, b1: Bytes, b2: Bytes,
                          strings: seq<Bytes>, from: nat, order: ByteOrder)
    requires file == h + t1 + t2 + b1 + b2 && |h + t1 + t2 + b1| == from
    requires TableFits(strings, from) && t2 == Table(strings, from, order) && b2 == Blob(strings)
    ensures ReadStrings(file, |h + t1|, |strings|, order) == Some(strings)
  {
    Regroup(h, t1, t2, b1, b2);
    TableFound(file, h + t1, strings, from, b1 + b2, order);
    BlobFound(file, h + t1 + t2 + b1, strings, []);
    ReadBack(file, |h + t1|, strings, from, order);
  }

  /** The file once more, from its parts. */
  lemma ReadFromParts(file: Bytes, t1: Bytes, t2: Bytes, b1: Bytes, b2: Bytes, n: nat, order: ByteOrder,
                      ids: seq<Bytes>, strings: seq<Bytes>)
    requires HEADER_SIZE + 8 * n < INT_LIMIT && n == |ids| == |strings|
    requires file == Header(n, order) + t1 + t2 + b1 + b2
    requires ReadStrings(file, HEADER_SIZE, n, order) == Some(ids)
    requires ReadStrings(file, HEADER_SIZE + 8 * n, n, order) == Some(strings)
    ensures ReadMoFile(file) == Some((ids, strings))
  {
    Regroup(Header(n, order), t1, t2, b1, b2);
    ReadHeader(n, t1 + t2 + b1 + b2, order);
    ReadMoFileIs(file, order, ids, strings, HEADER_SIZE + 8 * n);
  }

  /** The reader finds exactly the strings that were written. */
  lemma ReadFile(ids: seq<Bytes>, strings: seq<Bytes>, order: ByteOrder)
    requires |ids| == |strings| && Fits(ids, strings)
    ensures ReadMoFile(File(ids, strings, order)) == Some((ids, strings))
  {
    var h := Header(|ids|, order);
    var t1 := Table(ids, OriginalsAt(|ids|), order);
    var t2 := Table(strings, TranslationsAt(ids), order);
    var file := File(ids, strings, order);
    TableLength(ids, OriginalsAt(|ids|), order);
    TableLength(strings, TranslationsAt(ids), order);
    OriginalsFound(file, h, t1, t2, Blob(ids), Blob(strings), ids, OriginalsAt(|ids|), order);
    TranslationsFound(file, h, t1, t2, Blob(ids), Blob(strings), strings, TranslationsAt(ids), order);
    ReadFromParts(file, t1, t2, Blob(ids), Blob(strings), |ids|, order, ids, strings);
  }

  // ---------- the guarantees ----------

  /** The seven words of the header, as a reader sees them: revision 0, and no hash table. */
  lemma HeaderReads(ids: seq<Bytes>, strings: seq<Bytes>, order: ByteOrder)
    requires |ids| == |strings| && Fits(ids, strings)
    ensures var file := File(ids, strings, order);
      && ReadOrder(file) == Some(order)
      && ReadWord(file, 4, order) == Some(0)
      && ReadWord(file, 8, order) == Some(|ids|)
      && ReadWord(file, 12, order) == Some(28)
      && ReadWord(file, 16, order) == Some(28 + 8 * |ids|)
      && ReadWord(file, 20, order) == Some(0)
      && ReadWord(file, 24, order) == Some(0)
  {
    var t1 := Table(ids, OriginalsAt(|ids|), order);
    var t2 := Table(strings, TranslationsAt(ids), order);
    Regroup(Header(|ids|, order), t1, t2, Blob(ids), Blob(strings));
    ReadHeader(|ids|, t1 + t2 + Blob(ids) + Blob(strings), order);
  }

  lemma DecodeAllBack(ts: seq<Text>)
    ensures DecodeAll(EncodeAll(ts)) == Some(ts)
  {
    forall i | 0 <= i < |ts| ensures DecodeEach(EncodeAll(ts))[i] == Some(ts[i]) {
      DecodeEncode(ts[i]);
    }
    AllSomeIs(DecodeEach(EncodeAll(ts)), ts);
  }

  lemma AscendingDistinct(keys: seq<Text>)
    requires Ascending(keys)
    ensures forall i, j :: 0 <= i < j < |keys| ==> keys[i] != keys[j]
  {
    forall i, j | 0 <= i < j < |keys| ensures keys[i] != keys[j] { LessIrreflexive(keys[i]); }
  }

  /** Round trip: whatever catalog was written, reading the file gives it back, in either byte order. */
  lemma RoundTrip(keys: seq<Text>, catalog: Catalog, order: ByteOrder)
    requires SortedKeys(keys, catalog)
    requires Fits(EncodeAll(keys), EncodeAll(Translations(keys, catalog)))
    ensures ReadCatalog(File(EncodeAll(keys), EncodeAll(Translations(keys, catalog)), order)) == Some(catalog)
  {
    var texts := Translations(keys, catalog);
    ReadFile(EncodeAll(keys), EncodeAll(texts), order);
    DecodeAllBack(keys);
    DecodeAllBack(texts);
    AscendingDistinct(keys);
    ZipIsCatalog(keys, catalog);
  }

  lemma {:induction false} ZipIsCatalog(keys: seq<Text>, catalog: Catalog)
    requires SortedKeys(keys, catalog) && forall i, j :: 0 <= i < j < |keys| ==> keys[i] != keys[j]
    ensures Zip(keys, Translations(keys, catalog)) == catalog
  {
    ZipDistinct(keys, Translations(keys, catalog));
    var z := Zip(keys, Translations(keys, catalog));
    forall k | k in catalog ensures k in z && z[k] == catalog[k] {
      var i :| 0 <= i < |keys| && keys[i] == k;
      assert z[keys[i]] == Translations(keys, catalog)[i];
    }
  }

  /** The originals lie in the file in byte order, which is what a binary search over them needs. */
  lemma OriginalsAscend(keys: seq<Text>, catalog: Catalog)
    requires SortedKeys(keys, catalog)
    ensures Ascending(EncodeAll(keys))
  {
    forall i, j | 0 <= i < j < |keys| ensures Less(EncodeAll(keys)[i], EncodeAll(keys)[j]) {
      OrderSurvives(keys[i], keys[j]);
    }
  }

  /** Within a blob each string starts where the one before it and its NUL end. */
  lemma StringsTile(ms: seq<Bytes>, from: nat, i: nat)
    requires i < |ms|
    ensures Offset(ms, from, 0) == from
    ensures Offset(ms, from, i + 1) == Offset(ms, from, i) + |ms[i]| + 1
    ensures Offset(ms, from, |ms|) == from + |Blob(ms)|
  {
    FlatLength(Terminated(ms));
  }

  /** Header, tables and blobs tile the file: each part starts where the one before it ends. */
  lemma PartsTile(ids: seq<Bytes>, strings: seq<Bytes>, order: ByteOrder)
    requires |ids| == |strings| && Fits(ids, strings)
    ensures |Header(|ids|, order)| == HEADER_SIZE
    ensures |Table(ids, OriginalsAt(|ids|), order)| == |Table(strings, TranslationsAt(ids), order)| == 8 * |ids|
    ensures OriginalsAt(|ids|) == HEADER_SIZE + 8 * |ids| + 8 * |ids|
    ensures TranslationsAt(ids) == Offset(ids, OriginalsAt(|ids|), |ids|)
    ensures |File(ids, strings, order)| == Offset(strings, TranslationsAt(ids), |strings|)
  {
    FlatLength(Terminated(ids));
    FlatLength(Terminated(strings));
    TableLength(ids, OriginalsAt(|ids|), order);
    TableLength(strings, TranslationsAt(ids), order);
  }

  /** Every length and offset of these strings fits an unsigned word. */
  ghost predicate FieldsHold(ms: seq<Bytes>, from: nat) {
    forall i :: 0 <= i < |ms| ==> |ms[i]| <= 0xFFFF_FFFF && Offset(ms, from, i) <= 0xFFFF_FFFF
  }

  lemma FieldsFit(ms: seq<Bytes>, from: nat)
    ensures TableFits(ms, from) <==> FieldsHold(ms, from)
  {
    if FieldsHold(ms, from) {
      forall i | 0 <= i < |ms| ensures EntryFits(ms, from, i) { }
    }
    if TableFits(ms, from) {
      forall i | 0 <= i < |ms| ensures |ms[i]| <= 0xFFFF_FFFF && Offset(ms, from, i) <= 0xFFFF_FFFF {
        assert EntryFits(ms, from, i);
      }
    }
  }

  /** Entry i of the table of originals: the length of its string, then where that starts. */
  lemma OriginalEntryReads(ids: seq<Bytes>, strings: seq<Bytes>, order: ByteOrder, i: nat)
    requires |ids| == |strings| && Fits(ids, strings) && i < |ids|
    ensures ReadWord(File(ids, strings, order), 28 + 8 * i, order) == Some(|ids[i]|)
    ensures ReadWord(File(ids, strings, order), 28 + 8 * i + 4, order) == Some(Offset(ids, OriginalsAt(|ids|), i))
  {
    var from := OriginalsAt(|ids|);
    var h, t1 := Header(|ids|, order), Table(ids, from, order);
    FirstTable(h, t1, Table(strings, TranslationsAt(ids), order), Blob(ids), Blob(strings), ids, from, order, i);
  }

  /** And of the table of translations, which follows it. */
  lemma TranslationEntryReads(ids: seq<Bytes>, strings: seq<Bytes>, order: ByteOrder, i: nat)
    requires |ids| == |strings| && Fits(ids, strings) && i < |ids|
    ensures ReadWord(File(ids, strings, order), 28 + 8 * |ids| + 8 * i, order) == Some(|strings[i]|)
    ensures ReadWord(File(ids, strings, order), 28 + 8 * |ids| + 8 * i + 4, order) ==
            Some(Offset(strings, TranslationsAt(ids), i))
  {
    var from := TranslationsAt(ids);
    var h, t1 := Header(|ids|, order), Table(ids, OriginalsAt(|ids|), order);
    TableLength(ids, OriginalsAt(|ids|), order);
    SecondTable(h, t1, Table(strings, from, order), Blob(ids), Blob(strings), strings, from, order, i);
  }

  lemma FirstTable(h: Bytes, t1: Bytes, t2: Bytes, b1: Bytes, b2: Bytes, ms: seq<Bytes>, from: nat,
                   order: ByteOrder, i: nat)
    requires i < |ms| && TableFits(ms, from) && t1 == Table(ms, from, order)
    ensures ReadWord(h + t1 + t2 + b1 + b2, |h| + 8 * i, order) == Some(|ms[i]|)
    ensures ReadWord(h + t1 + t2 + b1 + b2, |h| + 8 * i + 4, order) == Some(Offset(ms, from, i))
  {
    Regroup(h, t1, t2, b1, b2);
    TableWords(h + t1 + t2 + b1 + b2, h, ms, from, t2 + b1 + b2, i, order);
  }

  lemma SecondTable(h: Bytes, t1: Bytes, t2: Bytes, b1: Bytes, b2: Bytes, ms: seq<Bytes>, from: nat,
                    order: ByteOrder, i: nat)
    requires i < |ms| && TableFits(ms, from) && t2 == Table(ms, from, order)
    ensures ReadWord(h + t1 + t2 + b1 + b2, |h| + |t1| + 8 * i, order) == Some(|ms[i]|)
    ensures ReadWord(h + t1 + t2 + b1 + b2, |h| + |t1| + 8 * i + 4, order) == Some(Offset(ms, from, i))
  {
    Regroup(h, t1, t2, b1, b2);
    TableWords(h + t1 + t2 + b1 + b2, h + t1, ms, from, b1 + b2, i, order);
  }

  /** Exactly what the fields can hold: the header's numbers are signed, the lengths and offsets of strings are not. */
  lemma FitsIff(ids: seq<Bytes>, strings: seq<Bytes>)
    ensures Fits(ids, strings) <==>
            && 28 + 8 * |ids| <= 0x7FFF_FFFF
            && FieldsHold(ids, OriginalsAt(|ids|))
            && FieldsHold(strings, TranslationsAt(ids))
    ensures OriginalsAt(|ids|) == 28 + 16 * |ids| && TranslationsAt(ids) == 28 + 16 * |ids| + |Blob(ids)|
  {
    FieldsFit(ids, OriginalsAt(|ids|));
    FieldsFit(strings, TranslationsAt(ids));
  }

  lemma BlobFits(ms: seq<Bytes>, from: nat)
    requires from + |Blob(ms)| < UINT_LIMIT
    ensures TableFits(ms, from)
  {
    forall i | 0 <= i < |ms| ensures EntryFits(ms, from, i) {
      PartAt(Terminated(ms), i);
      assert |Terminated(ms)[i]| == |ms[i]| + 1;
    }
  }

  /** A file below 2 GiB is always written. */
  lemma SmallFilesFit(ids: seq<Bytes>, strings: seq<Bytes>)
    requires |ids| == |strings| && OriginalsAt(|ids|) + |Blob(ids)| + |Blob(strings)| < INT_LIMIT
    ensures Fits(ids, strings)
  {
    BlobFits(ids, OriginalsAt(|ids|));
    BlobFits(strings, TranslationsAt(ids));
  }

  lemma {:induction false} CStringIs(file: Bytes, at: nat, m: Bytes)
    requires at + |m| < |file| && file[at..at + |m|] == m && file[at + |m|] == 0 && 0 !in m
    ensures ReadCString(file, at) == m
    decreases |m|
  {
    if m != [] {
      assert file[at] == file[at..at + |m|][0] == m[0];
      assert file[at + 1..at + 1 + |m[1..]|] == file[at..at + |m|][1..];
      CStringIs(file, at + 1, m[1..]);
      assert m == [m[0]] + m[1..];
    }
  }

  /** For texts without NUL, reading up to the terminating NUL gives the same string as reading by length. */
  lemma {:induction false} TerminatedRead(file: Bytes, table: nat, i: nat, order: ByteOrder, text: Text)
    requires ReadString(file, table, i, order) == Some(Encode(text)) && 0 !in text
    ensures ReadWord(file, table + 8 * i + 4, order).Some?
    ensures ReadCString(file, ReadWord(file, table + 8 * i + 4, order).value) == Encode(text)
  {
    NoZeroByte(text);
    CStringIs(file, ReadWord(file, table + 8 * i + 4, order).value, Encode(text));
  }
}
