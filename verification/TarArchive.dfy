/** A reference writer of ustar and pax archives (POSIX.1-2017, utility pax, "ustar Interchange Format"
    and "pax Header Block"), and the proof that the reader of Tar.dfy undoes it. */
module TarArchive {
  import opened Tables
  import opened Tar

  // ---- the writer ------------------------------------------------------------------------

  /** Header fields the reader does not look at (owner, times, checksum, link, magic), and the byte,
      NUL or space, that ends the size field. */
  datatype Meta = Meta(owner: Bytes, times: Bytes, link: Bytes, spare: Bytes, sizeEnd: char)

  predicate FitsMeta(m: Meta) {
    && |m.owner| == 24 && |m.times| == 20 && |m.link| == 188 && |m.spare| == 12
    && (m.sizeEnd == '\0' || m.sizeEnd == ' ')
  }

  const MAX_SIZE := Digits.Pow(8, 11)

  function Zeros(n: nat): Bytes {
    seq(n, _ => '\0')
  }

  function Field(text: Bytes, width: nat): Bytes
    requires |text| <= width
  {
    text + Zeros(width - |text|)
  }

  function OctalText(digits: seq<nat>): Bytes
    requires Digits.DigitsOf(8, digits)
  {
    seq(|digits|, i requires 0 <= i < |digits| => assert digits[i] in digits; (digits[i] + '0' as int) as char)
  }

  function SizeField(size: nat, end: char): Bytes
    requires size < MAX_SIZE
  {
    Digits.WrittenReadsBack(8, size, 11);
    OctalText(Digits.Written(8, size, 11)) + [end]
  }

  function Header(m: Meta, name: Bytes, size: nat, flag: char, prefix: Bytes): (h: Bytes)
    requires FitsMeta(m) && |name| <= 100 && |prefix| <= 155 && size < MAX_SIZE
    ensures |h| == BLOCK
  {
    Digits.WrittenReadsBack(8, size, 11);
    Field(name, 100) + m.owner + SizeField(size, m.sizeEnd) + m.times + [flag] + m.link + Field(prefix, 155) + m.spare
  }

  function Entry(header: Bytes, data: Bytes): Bytes {
    header + data + Zeros(RoundUp(|data|) - |data|)
  }

  /** A pax header before an entry: any records, under any name. */
  datatype Extension = Extension(data: Bytes, name: Bytes, meta: Meta)

  /** How a file's path is written: in the name field or split over prefix and name, then perhaps after a pax
      header with other records; or as a pax record among others, with any name and prefix in the file's
      own header. */
  datatype PathForm =
    | InName(ext: Option<Extension>)
    | InPrefix(at: nat, ext: Option<Extension>)
    | InPax(before: Bytes, length: Bytes, after: Bytes, paxName: Bytes, paxMeta: Meta, name: Bytes, prefix: Bytes)

  /** Files, global headers, and whatever else an archive holds: directories, links, devices, each with
      prefix and pax header of its own. */
  datatype Item =
    | File(path: Bytes, content: Bytes, form: PathForm, flag: char, meta: Meta)
    | Global(data: Bytes, name: Bytes, prefix: Bytes, meta: Meta)
    | Other(flag: char, data: Bytes, name: Bytes, prefix: Bytes, ext: Option<Extension>, meta: Meta)

  function FullPath(top: Bytes, path: Bytes): Bytes {
    top + "/" + path
  }

  function PaxData(before: Bytes, length: Bytes, path: Bytes, after: Bytes): Bytes {
    before + length + " path=" + path + "\n" + after
  }

  function ExtensionOf(form: PathForm, full: Bytes): Option<Extension> {
    match form
    case InName(ext) => ext
    case InPrefix(_, ext) => ext
    case InPax(before, length, after, paxName, paxMeta, _, _) =>
      Some(Extension(PaxData(before, length, full, after), paxName, paxMeta))
  }

  function NameField(form: PathForm, full: Bytes): Bytes
    requires form.InPrefix? ==> form.at < |full|
  {
    match form
    case InName(_) => full
    case InPrefix(at, _) => full[at + 1..]
    case InPax(_, _, _, _, _, name, _) => name
  }

  function PrefixField(form: PathForm, full: Bytes): Bytes
    requires form.InPrefix? ==> form.at < |full|
  {
    match form
    case InName(_) => []
    case InPrefix(at, _) => full[..at]
    case InPax(_, _, _, _, _, _, prefix) => prefix
  }

  /** Whole records, each ended by a newline. */
  predicate Lines(s: Bytes) {
    s == [] || s[|s| - 1] == '\n'
  }

  predicate FitsExtension(ext: Option<Extension>) {
    ext.Some? ==> FitsMeta(ext.value.meta) && |ext.value.data| < MAX_SIZE && |ext.value.name| <= 100
  }

  /** Records that do not name another path in the way the reader looks for one. */
  predicate NamesNoOther(records: Bytes, full: Bytes) {
    PaxPath(records, 0) == None || PaxPath(records, 0) == Some(full)
  }

  /** A path that fits the fields it is written in. */
  ghost predicate WritablePath(form: PathForm, full: Bytes) {
    && FitsExtension(ExtensionOf(form, full))
    && match form
       case InName(_) => |full| <= 100 && '\0' !in full
       case InPrefix(at, _) =>
         0 < at <= 155 && at < |full| && full[at] == '/' && |full| - at - 1 <= 100 && '\0' !in full
       case InPax(before, length, _, _, _, name, prefix) =>
         && '\n' !in full && Lines(before)
         && length != [] && (forall c :: c in length ==> DecimalDigit(c))
         && |name| <= 100 && |prefix| <= 155
  }

  /** The pax records that are there beside a file's own path record, up to it. */
  function OtherRecords(form: PathForm): Bytes {
    match form
    case InName(ext) => if ext.Some? then ext.value.data else []
    case InPrefix(_, ext) => if ext.Some? then ext.value.data else []
    case InPax(before, _, _, _, _, _, _) => before
  }

  ghost predicate PrintablePath(form: PathForm, full: Bytes) {
    WritablePath(form, full) && NamesNoOther(OtherRecords(form), full)
  }

  ghost predicate Printable(top: Bytes, item: Item) {
    && FitsMeta(item.meta)
    && match item
       case File(path, content, form, flag, _) =>
         path != [] && |content| < MAX_SIZE && (flag == '0' || flag == '\0') && PrintablePath(form, FullPath(top, path))
       case Global(data, name, prefix, _) =>
         |data| < MAX_SIZE && |name| <= 100 && |prefix| <= 155
       case Other(flag, data, name, prefix, ext, _) =>
         && flag !in {'0', '\0', 'x', 'g'} && FitsExtension(ext)
         && |data| < MAX_SIZE && |name| <= 100 && |prefix| <= 155
  }

  function PrintExtension(ext: Option<Extension>): Bytes
    requires FitsExtension(ext)
  {
    if ext.None? then []
    else Entry(Header(ext.value.meta, ext.value.name, |ext.value.data|, 'x', []), ext.value.data)
  }

  ghost function Print(top: Bytes, item: Item): Bytes
    requires Printable(top, item)
  {
    match item
    case Global(data, name, prefix, meta) => Entry(Header(meta, name, |data|, 'g', prefix), data)
    case Other(flag, data, name, prefix, ext, meta) =>
      PrintExtension(ext) + Entry(Header(meta, name, |data|, flag, prefix), data)
    case File(path, content, form, flag, meta) =>
      var full := FullPath(top, path);
      PrintExtension(ExtensionOf(form, full))
      + Entry(Header(meta, NameField(form, full), |content|, flag, PrefixField(form, full)), content)
  }

  ghost function PrintAll(top: Bytes, items: seq<Item>): Bytes
    requires forall item :: item in items ==> Printable(top, item)
  {
    if items == [] then [] else Print(top, items[0]) + PrintAll(top, items[1..])
  }

  /** What ends an archive: zero blocks, or simply less than a block. */
  predicate EndOfArchive(tail: Bytes) {
    |tail| < BLOCK || ZeroBlock(tail[..BLOCK])
  }

  // ---- fields read back ------------------------------------------------------------------

  lemma {:induction false} CutClean(s: Bytes)
    requires '\0' !in s
    ensures CutNul(s) == s
  {
    if s != [] {
      assert s[0] in s && forall c :: c in s[1..] ==> c in s;
      CutClean(s[1..]);
    }
  }

  lemma {:induction false} CutPadded(text: Bytes, n: nat)
    requires '\0' !in text
    ensures CutNul(text + Zeros(n)) == text
  {
    if text == [] {
      assert text + Zeros(n) == Zeros(n);
      assert n > 0 ==> OneLine(Zeros(n)[1..]);
    } else {
      assert text[0] in text && forall c :: c in text[1..] ==> c in text;
      assert (text + Zeros(n))[1..] == text[1..] + Zeros(n);
      CutPadded(text[1..], n);
    }
  }

  lemma {:induction false} OctalTextReadsBack(digits: seq<nat>, rest: Bytes)
    requires Digits.DigitsOf(8, digits) && (rest == [] || !OctalDigit(rest[0]))
    ensures LeadingOctal(OctalText(digits) + rest) == digits
  {
    var s := OctalText(digits) + rest;
    if digits == [] {
      assert s == rest;
    } else {
      assert digits[0] in digits && forall d :: d in digits[1..] ==> d in digits;
      assert s[1..] == OctalText(digits[1..]) + rest;
      OctalTextReadsBack(digits[1..], rest);
    }
  }

  lemma OctalTextIsOctal(digits: seq<nat>)
    requires Digits.DigitsOf(8, digits)
    ensures forall c :: c in OctalText(digits) ==> OctalDigit(c)
    ensures |OctalText(digits)| == |digits|
  {
    forall i | 0 <= i < |digits| ensures OctalDigit(OctalText(digits)[i]) {
      assert digits[i] in digits;
    }
  }

  lemma SizeReadsBack(size: nat, end: char)
    requires size < MAX_SIZE && (end == '\0' || end == ' ')
    ensures SizeOf(SizeField(size, end)) == size
    ensures !ZeroBlock(SizeField(size, end)) && |SizeField(size, end)| == 12
  {
    Digits.WrittenReadsBack(8, size, 11);
    var digits := Digits.Written(8, size, 11);
    var text := OctalText(digits);
    OctalTextIsOctal(digits);
    assert text[0] in text && '\0' !in text;
    if end == '\0' {
      CutPadded(text, 1);
      assert text + Zeros(1) == SizeField(size, end);
      OctalTextReadsBack(digits, []);
      assert text + [] == text;
    } else {
      CutClean(text + [end]);
      OctalTextReadsBack(digits, [end]);
    }
    assert SizeField(size, end)[0] == text[0];
  }

  lemma HeaderFields(m: Meta, name: Bytes, size: nat, flag: char, prefix: Bytes)
    requires FitsMeta(m) && |name| <= 100 && |prefix| <= 155 && size < MAX_SIZE
    ensures var h := Header(m, name, size, flag, prefix);
      && h[..100] == Field(name, 100) && h[124..136] == SizeField(size, m.sizeEnd)
      && h[156] == flag && h[345..500] == Field(prefix, 155)
  {
    hide OctalText;
    Digits.WrittenReadsBack(8, size, 11);
  }

  lemma HeaderReadsBack(m: Meta, name: Bytes, size: nat, flag: char, prefix: Bytes)
    requires FitsMeta(m) && |name| <= 100 && |prefix| <= 155 && size < MAX_SIZE
    ensures var h := Header(m, name, size, flag, prefix);
      SizeOf(h[124..136]) == size && h[156] == flag && !ZeroBlock(h)
    ensures '\0' !in name && '\0' !in prefix ==>
      NameOf(Header(m, name, size, flag, prefix)) == if prefix != [] then prefix + "/" + name else name
  {
    hide SizeOf, SizeField, Header, CutNul;
    var h := Header(m, name, size, flag, prefix);
    HeaderFields(m, name, size, flag, prefix);
    SizeReadsBack(size, m.sizeEnd);
    var i :| 0 <= i < 12 && h[124..136][i] != '\0';
    assert h[124 + i] != '\0';
    if '\0' !in name && '\0' !in prefix {
      CutPadded(name, 100 - |name|);
      CutPadded(prefix, 155 - |prefix|);
    }
  }

  // ---- entries read back -----------------------------------------------------------------

  lemma EntryIsRead(header: Bytes, data: Bytes, rest: Bytes, r: Reader, sha: Bytes -> Bytes)
    requires |header| == BLOCK && SizeOf(header[124..136]) == |data| && !ZeroBlock(header)
    ensures Parse(Entry(header, data) + rest, r, sha) == Parse(rest, Take(r, header, data, sha), sha)
  {
    hide Parse, CutNul, SizeOf, NameOf, PaxPath, IndexOfSlash, Take, ZeroBlock;
    var buf := Entry(header, data) + rest;
    assert buf[0..] == buf && buf[0..BLOCK] == header;
    assert buf[BLOCK..BLOCK + |data|] == data;
    assert buf[BLOCK + RoundUp(|data|)..] == rest;
    ParseAt(buf, 0, r, sha);
  }

  lemma {:induction false} UntilNewlineReads(value: Bytes, after: Bytes)
    requires '\n' !in value
    ensures UntilNewline(value + "\n" + after) == Some(value)
  {
    var s := value + "\n" + after;
    if value == [] {
      assert s[0] == '\n';
    } else {
      assert [s[0]] + value[1..] == value;
      assert value[0] in value && forall c :: c in value[1..] ==> c in value;
      assert s[1..] == value[1..] + "\n" + after;
      UntilNewlineReads(value[1..], after);
    }
  }

  lemma {:induction false} PaxPathSkips(s: Bytes, q: nat, at: nat)
    requires q <= at < |s|
    requires forall k :: q <= k < at ==> PaxPathAt(s, k).None?
    requires PaxPathAt(s, at).Some?
    ensures PaxPath(s, q) == PaxPathAt(s, at)
    decreases at - q
  {
    if q < at {
      PaxPathSkips(s, q + 1, at);
    }
  }

  lemma {:induction false} UntilNewlineStops(a: Bytes, b: Bytes)
    requires '\n' in a
    ensures UntilNewline(a + b) == UntilNewline(a)
  {
    assert (a + b)[0] == a[0];
    if a[0] != '\n' {
      assert (a + b)[1..] == a[1..] + b;
      UntilNewlineStops(a[1..], b);
    }
  }

  lemma {:induction false} UntilNewlineIsOneLine(s: Bytes)
    ensures UntilNewline(s).Some? ==> '\n' !in UntilNewline(s).value
  {
    if s != [] {
      UntilNewlineIsOneLine(s[1..]);
    }
  }

  /** What stands in whole records is found or not found there whatever follows them. */
  lemma PathMarksInLines(records: Bytes, more: Bytes, q: nat)
    requires Lines(records) && q < |records|
    ensures PaxPathAt(records + more, q) == PaxPathAt(records, q)
  {
    var s, n := records + more, |records|;
    if 1 <= q && q + 6 <= |s| {
      var text := s[q..q + 6];
      if q + 6 < n {
        assert records[q..q + 6] == text && records[q - 1] == s[q - 1];
        assert s[q + 6..] == records[q + 6..] + more;
        assert records[q + 6..][n - 1 - (q + 6)] == '\n';
        UntilNewlineStops(records[q + 6..], more);
      } else {
        assert text[n - 1 - q] == '\n' != " path="[n - 1 - q];
        assert q + 6 == n ==> records[q..q + 6] == text;
      }
    }
  }

  lemma {:induction false} PaxPathPastLines(records: Bytes, more: Bytes, q: nat)
    requires Lines(records) && q <= |records|
    ensures PaxPath(records + more, q) == Coalesce(PaxPath(records, q), PaxPath(records + more, |records|))
    decreases |records| - q
  {
    if q < |records| {
      PathMarksInLines(records, more, q);
      PaxPathPastLines(records, more, q + 1);
    }
  }

  /** A pax header with a path record among others: the reader takes the first path mark there is, so the
      path of an earlier one if the records before have one, and the record's own otherwise. */
  lemma PaxPathOfRecord(before: Bytes, length: Bytes, path: Bytes, after: Bytes)
    requires Lines(before) && length != [] && (forall c :: c in length ==> DecimalDigit(c))
    requires '\n' !in path && path != []
    ensures PaxPath(PaxData(before, length, path, after), 0) == Coalesce(PaxPath(before, 0), Some(path))
  {
    hide UntilNewline;
    var more := length + " path=" + path + "\n" + after;
    var s, b, at := before + more, |before|, |before| + |length|;
    assert PaxData(before, length, path, after) == s;
    PaxPathPastLines(before, more, 0);
    forall k | b <= k < at ensures PaxPathAt(s, k).None? {
      assert s[k] == length[k - b] && length[k - b] in length;
      assert k + 6 <= |s| ==> s[k..k + 6][0] == s[k];
    }
    assert s[at..at + 6] == " path=";
    assert s[at + 6..] == path + "\n" + after;
    assert s[at - 1] == length[|length| - 1] && length[|length| - 1] in length;
    UntilNewlineReads(path, after);
    PaxPathSkips(s, b, at);
  }

  /** Exactly when the path record is the one found: no earlier record names a path in that form, or it
      names the same. */
  lemma PaxRecordIsFoundIff(before: Bytes, length: Bytes, path: Bytes, after: Bytes)
    requires Lines(before) && length != [] && (forall c :: c in length ==> DecimalDigit(c))
    requires '\n' !in path && path != []
    ensures PaxPath(PaxData(before, length, path, after), 0) == Some(path) <==>
      PaxPath(before, 0) == None || PaxPath(before, 0) == Some(path)
  {
    PaxPathOfRecord(before, length, path, after);
  }

  /** A path with a newline, or no path at all, is never found, whatever the records. */
  lemma {:induction false} NewlineIsNeverFound(records: Bytes, q: nat)
    ensures PaxPath(records, q).Some? ==> '\n' !in PaxPath(records, q).value && PaxPath(records, q).value != []
    decreases |records| - q
  {
    if q < |records| {
      if q + 6 <= |records| {
        UntilNewlineIsOneLine(records[q + 6..]);
      }
      NewlineIsNeverFound(records, q + 1);
    }
  }

  /** Records are not taken apart by their lengths: a comment such as "24 comment=see 1 path=b" is read as
      naming a path, and whatever record follows is not reached. */
  lemma CommentCanHideThePath(comment: Bytes, shown: Bytes, records: Bytes)
    requires comment != [] && DecimalDigit(comment[|comment| - 1]) && 'p' !in comment
    requires shown != [] && '\n' !in shown
    ensures PaxPath(comment + " path=" + shown + "\n" + records, 0) == Some(shown)
  {
    var s, at := comment + " path=" + shown + "\n" + records, |comment|;
    forall k | 0 <= k < at ensures PaxPathAt(s, k).None? {
      assert s[k + 1] == if k + 1 < at then comment[k + 1] else ' ';
      assert k + 6 <= |s| ==> s[k..k + 6][1] == s[k + 1];
    }
    assert s[at..at + 6] == " path=" && s[at + 6..] == shown + "\n" + records;
    UntilNewlineReads(shown, records);
    PaxPathSkips(s, 0, at);
  }

  lemma {:induction false} SlashAfterTop(top: Bytes, rest: Bytes)
    requires '/' !in top
    ensures IndexOfSlash(top + "/" + rest) == |top|
  {
    if top != [] {
      assert top[0] in top && forall c :: c in top[1..] ==> c in top;
      assert (top + "/" + rest)[1..] == top[1..] + "/" + rest;
      SlashAfterTop(top[1..], rest);
    }
  }

  lemma TopIsDropped(files: map<Bytes, Bytes>, top: Bytes, path: Bytes, hash: Bytes)
    requires top != [] && '/' !in top && path != []
    ensures Store(files, FullPath(top, path), hash) == files[path := hash]
  {
    var full := FullPath(top, path);
    SlashAfterTop(top, path);
    assert full[|top| + 1..] == path;
  }

  function Extract(files: map<Bytes, Bytes>, item: Item, sha: Bytes -> Bytes): map<Bytes, Bytes> {
    if item.File? then files[item.path := sha(item.content)] else files
  }

  /** What is pending for an entry that follows a pax header. */
  function Pending(ext: Option<Extension>): Option<Bytes> {
    if ext.Some? then PaxPath(ext.value.data, 0) else None
  }

  /** A pax header and the entry after it. */
  lemma ExtendedEntryIsRead(ext: Option<Extension>, m: Meta, name: Bytes, flag: char, prefix: Bytes, data: Bytes,
                            rest: Bytes, files: map<Bytes, Bytes>, sha: Bytes -> Bytes)
    requires FitsExtension(ext) && FitsMeta(m) && |name| <= 100 && |prefix| <= 155 && |data| < MAX_SIZE
    ensures var header := Header(m, name, |data|, flag, prefix);
      Parse(PrintExtension(ext) + Entry(header, data) + rest, Reader(None, files), sha)
      == Parse(rest, Take(Reader(Pending(ext), files), header, data, sha), sha)
  {
    hide Parse, ZeroBlock, SizeOf, CutNul, PaxPath, IndexOfSlash, Store, NameOf, Header, Entry;
    var header := Header(m, name, |data|, flag, prefix);
    HeaderReadsBack(m, name, |data|, flag, prefix);
    EntryIsRead(header, data, rest, Reader(Pending(ext), files), sha);
    if ext.Some? {
      var x := ext.value;
      HeaderReadsBack(x.meta, x.name, |x.data|, 'x', []);
      EntryIsRead(Header(x.meta, x.name, |x.data|, 'x', []), x.data, Entry(header, data) + rest, Reader(None, files), sha);
      assert PrintExtension(ext) + Entry(header, data) + rest == PrintExtension(ext) + (Entry(header, data) + rest);
    } else {
      assert PrintExtension(ext) + Entry(header, data) + rest == Entry(header, data) + rest;
    }
  }

  /** The name the reader uses for a file: the pending path, or else what the header says. */
  function NameUsed(form: PathForm, full: Bytes, header: Bytes): Bytes
    requires |header| == BLOCK
  {
    var pending := Pending(ExtensionOf(form, full));
    if pending.Some? then pending.value else NameOf(header)
  }

  /** However a path is written, it is the name used exactly when no other pax record is taken for a path. */
  lemma FileIsNamedIff(form: PathForm, full: Bytes, m: Meta, size: nat, flag: char)
    requires WritablePath(form, full) && full != [] && FitsMeta(m) && size < MAX_SIZE
    ensures NameUsed(form, full, Header(m, NameField(form, full), size, flag, PrefixField(form, full))) == full <==>
      NamesNoOther(OtherRecords(form), full)
  {
    hide PaxPathAt, NameOf, Header;
    HeaderReadsBack(m, NameField(form, full), size, flag, PrefixField(form, full));
    match form
    case InName(_) =>
    case InPrefix(at, _) => assert full == full[..at] + "/" + full[at + 1..];
    case InPax(before, length, after, _, _, _, _) => PaxPathOfRecord(before, length, full, after);
  }

  lemma ItemIsRead(top: Bytes, item: Item, rest: Bytes, files: map<Bytes, Bytes>, sha: Bytes -> Bytes)
    requires top != [] && '/' !in top && Printable(top, item)
    ensures Parse(Print(top, item) + rest, Reader(None, files), sha)
         == Parse(rest, Reader(None, Extract(files, item, sha)), sha)
  {
    hide Parse, ZeroBlock, SizeOf, CutNul, PaxPath, IndexOfSlash, Store, NameOf, Header, Entry, PrintExtension;
    match item
    case Global(data, name, prefix, meta) =>
      HeaderReadsBack(meta, name, |data|, 'g', prefix);
      EntryIsRead(Header(meta, name, |data|, 'g', prefix), data, rest, Reader(None, files), sha);
    case Other(flag, data, name, prefix, ext, meta) =>
      HeaderReadsBack(meta, name, |data|, flag, prefix);
      ExtendedEntryIsRead(ext, meta, name, flag, prefix, data, rest, files, sha);
    case File(path, content, form, flag, meta) =>
      var full := FullPath(top, path);
      var name, prefix := NameField(form, full), PrefixField(form, full);
      HeaderReadsBack(meta, name, |content|, flag, prefix);
      ExtendedEntryIsRead(ExtensionOf(form, full), meta, name, flag, prefix, content, rest, files, sha);
      FileIsNamedIff(form, full, meta, |content|, flag);
      TopIsDropped(files, top, path, sha(content));
  }

  // ---- the archive read back -------------------------------------------------------------

  function ExtractAll(files: map<Bytes, Bytes>, items: seq<Item>, sha: Bytes -> Bytes): map<Bytes, Bytes>
    decreases |items|
  {
    if items == [] then files else ExtractAll(Extract(files, items[0], sha), items[1..], sha)
  }

  lemma {:induction false} ItemsAreRead(top: Bytes, items: seq<Item>, tail: Bytes,
                                        files: map<Bytes, Bytes>, sha: Bytes -> Bytes)
    requires top != [] && '/' !in top && (forall item :: item in items ==> Printable(top, item))
    ensures Parse(PrintAll(top, items) + tail, Reader(None, files), sha)
         == Parse(tail, Reader(None, ExtractAll(files, items, sha)), sha)
    decreases |items|
  {
    hide Parse, ZeroBlock, SizeOf, CutNul, PaxPath, Take, Print, Printable;
    if items == [] {
      assert PrintAll(top, items) + tail == tail;
    } else {
      var rest := PrintAll(top, items[1..]) + tail;
      assert PrintAll(top, items) + tail == Print(top, items[0]) + rest;
      ItemIsRead(top, items[0], rest, files, sha);
      ItemsAreRead(top, items[1..], tail, Extract(files, items[0], sha), sha);
    }
  }

  /** The last file written under a path. */
  predicate LastOf(items: seq<Item>, i: nat) {
    && i < |items| && items[i].File?
    && forall j :: i < j < |items| && items[j].File? ==> items[j].path != items[i].path
  }

  ghost predicate Written(items: seq<Item>, path: Bytes) {
    exists i :: 0 <= i < |items| && items[i].File? && items[i].path == path
  }

  /** Exactly the paths written, each with the hash of the last content written under it. */
  ghost predicate HoldsLatest(files: map<Bytes, Bytes>, items: seq<Item>, sha: Bytes -> Bytes) {
    && (forall p :: p in files <==> Written(items, p))
    && (forall i: nat :: LastOf(items, i) && items[i].path in files ==> files[items[i].path] == sha(items[i].content))
  }

  lemma WrittenFirstOrLater(items: seq<Item>, path: Bytes)
    requires items != []
    ensures Written(items, path) <==> (items[0].File? && items[0].path == path) || Written(items[1..], path)
  {
    var rest := items[1..];
    if i :| 0 <= i < |rest| && rest[i].File? && rest[i].path == path {
      assert items[i + 1].path == path;
    }
    if i :| 1 <= i < |items| && items[i].File? && items[i].path == path {
      assert rest[i - 1].path == path;
    }
  }

  lemma {:induction false} LaterFilesWin(files: map<Bytes, Bytes>, items: seq<Item>, sha: Bytes -> Bytes, path: Bytes)
    ensures var all := ExtractAll(files, items, sha);
      && (path in all <==> path in files || Written(items, path))
      && (!Written(items, path) && path in files ==> all[path] == files[path])
      && (forall i: nat :: LastOf(items, i) && items[i].path == path && path in all ==> all[path] == sha(items[i].content))
    decreases |items|
  {
    if items != [] {
      var rest := items[1..];
      WrittenFirstOrLater(items, path);
      LaterFilesWin(Extract(files, items[0], sha), rest, sha, path);
      var all := ExtractAll(files, items, sha);
      forall i: nat | LastOf(items, i) && items[i].path == path && path in all ensures all[path] == sha(items[i].content) {
        if i > 0 {
          assert rest[i - 1] == items[i];
          assert LastOf(rest, i - 1);
        } else {
          assert forall j :: 0 <= j < |rest| ==> rest[j] == items[j + 1];
          assert !Written(rest, path);
        }
      }
    }
  }

  /** Reading undoes writing: from an archive of files under one top directory, whatever the path forms,
      header fillers, directories, links and global headers in between, the reader gives exactly the
      files' paths below the top, each with the hash of the last content written under it. Pax headers may
      stand before any entry, with any records that name no other path. */
  lemma ReadingUndoesWriting(top: Bytes, items: seq<Item>, tail: Bytes, sha: Bytes -> Bytes)
    requires top != [] && '/' !in top && EndOfArchive(tail)
    requires forall item :: item in items ==> Printable(top, item)
    ensures var parsed := ParseTar(PrintAll(top, items) + tail, sha);
      parsed.Files? && HoldsLatest(parsed.files, items, sha)
  {
    hide PrintAll, Printable, Written;
    ItemsAreRead(top, items, tail, map[], sha);
    forall p ensures
      && (p in ExtractAll(map[], items, sha) <==> Written(items, p))
      && (forall i: nat :: LastOf(items, i) && items[i].path == p && p in ExtractAll(map[], items, sha) ==>
            ExtractAll(map[], items, sha)[p] == sha(items[i].content))
    {
      LaterFilesWin(map[], items, sha, p);
    }
  }

  /** An archive cut inside the data of an entry is reported as corrupt, whatever came before it. */
  lemma CutEntryIsCorrupt(top: Bytes, items: seq<Item>, m: Meta, name: Bytes, size: nat, flag: char, prefix: Bytes,
                          data: Bytes, sha: Bytes -> Bytes)
    requires top != [] && '/' !in top && forall item :: item in items ==> Printable(top, item)
    requires FitsMeta(m) && |name| <= 100 && |prefix| <= 155 && |data| < size < MAX_SIZE
    ensures ParseTar(PrintAll(top, items) + (Header(m, name, size, flag, prefix) + data), sha) == Corrupt
  {
    hide Parse, PrintAll, Printable, ZeroBlock, SizeOf, Header, Take, CutNul;
    var tail := Header(m, name, size, flag, prefix) + data;
    var r := Reader(None, ExtractAll(map[], items, sha));
    ItemsAreRead(top, items, tail, map[], sha);
    HeaderReadsBack(m, name, size, flag, prefix);
    assert tail[0..] == tail && tail[0..BLOCK] == Header(m, name, size, flag, prefix);
    ParseAt(tail, 0, r, sha);
  }

  // ---- headers the writer does not write -------------------------------------------------

  /** No line terminator of JavaScript from here on: LF, CR, U+2028 or U+2029 in UTF-8. */
  ghost predicate NoLineEnd(s: Bytes, from: nat) {
    forall i :: from <= i < |s| ==>
      && s[i] != '\n' && s[i] != '\r'
      && !(i + 2 < |s| && s[i..i + 2] == ['\U{e2}', '\U{80}'] && s[i + 2] in ['\U{a8}', '\U{a9}'])
  }

  lemma OneLineIff(s: Bytes, from: nat)
    requires from <= |s|
    ensures OneLine(s[from..]) <==> NoLineEnd(s, from)
  {
    var t := s[from..];
    forall i | 0 <= i < |t| ensures LineEndAt(t, i) <==>
      || s[from + i] == '\n' || s[from + i] == '\r'
      || (from + i + 2 < |s| && s[from + i..from + i + 2] == ['\U{e2}', '\U{80}'] && s[from + i + 2] in ['\U{a8}', '\U{a9}'])
    {
      if i + 2 < |t| {
        assert t[i + 2] == s[from + i + 2] && t[i + 1] == s[from + i + 1] && t[i] == s[from + i];
        assert s[from + i..from + i + 2] == [t[i], t[i + 1]];
      }
    }
    if OneLine(t) {
      forall i | from <= i < |s| ensures s[i] != '\n' && s[i] != '\r'
        && !(i + 2 < |s| && s[i..i + 2] == ['\U{e2}', '\U{80}'] && s[i + 2] in ['\U{a8}', '\U{a9}'])
      {
        assert !LineEndAt(t, i - from);
      }
    }
  }

  /** A field ends before its first NUL that no line terminator follows, or is all text without one. */
  lemma {:induction false} FieldIsCut(s: Bytes, n: nat)
    requires n <= |s| && (n < |s| ==> s[n] == '\0' && NoLineEnd(s, n + 1))
    requires forall i :: 0 <= i < n ==> !(s[i] == '\0' && NoLineEnd(s, i + 1))
    ensures CutNul(s) == s[..n]
  {
    if s != [] {
      OneLineIff(s, 1);
      if n > 0 {
        forall i | 1 <= i <= |s| ensures NoLineEnd(s[1..], i - 1) <==> NoLineEnd(s, i) {
          OneLineIff(s, i);
          OneLineIff(s[1..], i - 1);
          assert s[1..][i - 1..] == s[i..];
        }
        FieldIsCut(s[1..], n - 1);
        assert s[..n] == [s[0]] + s[1..][..n - 1];
      }
    }
  }

  lemma {:induction false} BlanksAreSkipped(blanks: Bytes, rest: Bytes)
    requires forall c :: c in blanks ==> c == ' ' || 9 <= c as int <= 13
    requires rest != [] ==> rest[0] != ' ' && !(9 <= rest[0] as int <= 13)
    ensures SkipBlanks(blanks + rest) == rest
  {
    if blanks != [] {
      assert blanks[0] in blanks && forall c :: c in blanks[1..] ==> c in blanks;
      BlanksAreSkipped(blanks[1..], rest);
      assert (blanks + rest)[1..] == blanks[1..] + rest;
    } else {
      assert blanks + rest == rest;
    }
  }

  /** A size field is read as white space, a sign if there is one, the octal digits that follow, and
      anything else after them; without digits it is zero. */
  lemma SizeOfText(blanks: Bytes, sign: Bytes, digits: seq<nat>, rest: Bytes)
    requires sign in {"", "-", "+"} && Digits.DigitsOf(8, digits)
    requires (forall c :: c in blanks ==> c == ' ' || 9 <= c as int <= 13) && '\0' !in blanks + rest
    requires rest != [] ==> !('0' <= rest[0] <= '7')
    requires sign == "" && digits == [] && rest != [] ==> rest[0] !in {'-', '+', ' '} && !(9 <= rest[0] as int <= 13)
    ensures SizeOf(blanks + (sign + (OctalText(digits) + rest)))
         == if sign == "-" then -(Digits.Value(8, digits) as int) else Digits.Value(8, digits)
  {
    hide CutNul, SkipBlanks, LeadingOctal, OctalText, Digits.Value;
    var text := OctalText(digits) + rest;
    OctalTextIsOctal(digits);
    OctalTextReadsBack(digits, rest);
    assert '\0' !in sign + text;
    if digits != [] {
      assert text[0] in OctalText(digits);
    } else {
      assert text == rest;
    }
    BlanksAreSkipped(blanks, sign + text);
    CutClean(blanks + (sign + text));
    if sign != "" {
      assert (sign + text)[1..] == text;
    } else {
      assert sign + text == text;
    }
  }

  /** Of a name the part below its first slash is stored, if the top directory before it and what is below
      are not empty; otherwise nothing is. */
  lemma StoreIs(files: map<Bytes, Bytes>, name: Bytes, hash: Bytes, top: Bytes, below: Bytes)
    ensures name == top + "/" + below && '/' !in top ==>
      Store(files, name, hash) == if top != [] && below != [] then files[below := hash] else files
    ensures '/' !in name ==> Store(files, name, hash) == files
  {
    if name == top + "/" + below && '/' !in top {
      SlashAfterTop(top, below);
      assert name[|top| + 1..] == below;
    }
  }

  /** What an entry does to the reader, by its type: a file is stored under a pax path still waiting for it or
      else under its own name, a pax header replaces the path that waits if it names one, a global header does
      nothing, and any other entry only uses up that path. */
  lemma EntryTaken(r: Reader, header: Bytes, data: Bytes, sha: Bytes -> Bytes)
    requires |header| == 512
    ensures var next := Take(r, header, data, sha);
      match header[156]
      case '0' => next == Reader(None, Store(r.files, match r.pax case Some(p) => p case None => NameOf(header), sha(data)))
      case '\0' => next == Reader(None, Store(r.files, match r.pax case Some(p) => p case None => NameOf(header), sha(data)))
      case 'x' => next == (match PaxPath(data, 0) case Some(p) => Reader(Some(p), r.files) case None => r)
      case 'g' => next == r
      case _ => next == Reader(None, r.files)
  {
  }
}
