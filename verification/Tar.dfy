/** The archive reader of sgx-enclave/src/utils/code-integrity.js: 512-byte ustar headers, pax path
    records, and the map from path to hash. A buffer is a sequence of bytes, each written as the
    character with that code; text is compared as bytes. */
module Tar {
  import opened Tables
  import Digits

  type Bytes = string

  const BLOCK := 512

  // ---- header fields ---------------------------------------------------------------------

  /** A line terminator of JavaScript's `.`: LF, CR, or the UTF-8 form of U+2028 or U+2029. */
  predicate LineEndAt(s: Bytes, i: nat)
    requires i < |s|
  {
    || s[i] == '\n' || s[i] == '\r'
    || (i + 2 < |s| && s[i] == '\U{e2}' && s[i + 1] == '\U{80}' && (s[i + 2] == '\U{a8}' || s[i + 2] == '\U{a9}'))
  }

  predicate OneLine(s: Bytes) {
    forall i :: 0 <= i < |s| ==> !LineEndAt(s, i)
  }

  /** Cuts at the first NUL that is followed by no line terminator. */
  function CutNul(s: Bytes): Bytes {
    if s == [] then []
    else if s[0] == '\0' && OneLine(s[1..]) then []
    else [s[0]] + CutNul(s[1..])
  }

  predicate Blank(c: char) {
    c == ' ' || ('\t' <= c <= '\r')
  }

  function SkipBlanks(s: Bytes): Bytes {
    if s != [] && Blank(s[0]) then SkipBlanks(s[1..]) else s
  }

  predicate OctalDigit(c: char) {
    '0' <= c <= '7'
  }

  function LeadingOctal(s: Bytes): seq<nat> {
    if s != [] && OctalDigit(s[0]) then [s[0] as int - '0' as int] + LeadingOctal(s[1..]) else []
  }

  /** parseInt(text, 8) || 0: an optional sign, then the octal digits there are; without digits, 0. */
  function SizeOf(field: Bytes): int {
    var s := SkipBlanks(CutNul(field));
    if s != [] && s[0] == '-' then -(Digits.Value(8, LeadingOctal(s[1..])) as int)
    else if s != [] && s[0] == '+' then Digits.Value(8, LeadingOctal(s[1..]))
    else Digits.Value(8, LeadingOctal(s))
  }

  function NameOf(header: Bytes): Bytes
    requires |header| == BLOCK
  {
    var name := CutNul(header[..100]);
    var prefix := CutNul(header[345..500]);
    if prefix != [] then prefix + "/" + name else name
  }

  predicate ZeroBlock(header: Bytes) {
    forall i :: 0 <= i < |header| ==> header[i] == '\0'
  }

  // ---- pax records -----------------------------------------------------------------------

  predicate DecimalDigit(c: char) {
    '0' <= c <= '9'
  }

  function UntilNewline(s: Bytes): Option<Bytes> {
    if s == [] then None
    else if s[0] == '\n' then Some([])
    else
      var rest := UntilNewline(s[1..]);
      if rest.Some? then Some([s[0]] + rest.value) else None
  }

  /** A digit, then ` path=` at position q. */
  predicate PathMarkAt(s: Bytes, q: nat) {
    1 <= q && q + 6 <= |s| && DecimalDigit(s[q - 1]) && s[q..q + 6] == " path="
  }

  /** A path mark at position q, then text up to a newline. */
  function PaxPathAt(s: Bytes, q: nat): Option<Bytes>
    requires q < |s|
  {
    if PathMarkAt(s, q) then
      var value := UntilNewline(s[q + 6..]);
      if value == Some([]) then None else value
    else None
  }

  /** The leftmost match of digits, ` path=`, text, newline, searched from q on. */
  function PaxPath(s: Bytes, q: nat): Option<Bytes>
    decreases |s| - q
  {
    if q >= |s| then None
    else if PaxPathAt(s, q).Some? then PaxPathAt(s, q)
    else PaxPath(s, q + 1)
  }

  // ---- one entry -------------------------------------------------------------------------

  /** The reader between two entries: a path waiting for the next file, and the map so far. */
  datatype Reader = Reader(pax: Option<Bytes>, files: map<Bytes, Bytes>)

  function IndexOfSlash(s: Bytes): (i: int)
    ensures -1 <= i < |s|
    ensures 0 <= i ==> s[i] == '/' && '/' !in s[..i]
    ensures i < 0 ==> '/' !in s
  {
    if s == [] then -1
    else if s[0] == '/' then 0
    else
      var rest := IndexOfSlash(s[1..]);
      if rest < 0 then -1 else rest + 1
  }

  /** Drops the top directory; a name without one, or with nothing below it, is not stored. */
  function Store(files: map<Bytes, Bytes>, name: Bytes, hash: Bytes): map<Bytes, Bytes> {
    var slash := IndexOfSlash(name);
    if 0 < slash < |name| - 1 then files[name[slash + 1..] := hash] else files
  }

  function Take(r: Reader, header: Bytes, data: Bytes, sha: Bytes -> Bytes): Reader
    requires |header| == BLOCK
  {
    var flag := header[156];
    if flag == 'x' then Reader(Coalesce(PaxPath(data, 0), r.pax), r.files)
    else if flag == '0' || flag == '\0' then
      Reader(None, Store(r.files, if r.pax.Some? then r.pax.value else NameOf(header), sha(data)))
    else if flag == 'g' then r
    else Reader(None, r.files)
  }

  // ---- the whole archive -----------------------------------------------------------------

  /** Backwards: a size of -512 or less, by which the reader would not move on. */
  datatype Parsed = Files(files: map<Bytes, Bytes>) | Corrupt | Backwards

  /** The size in whole blocks. */
  function RoundUp(size: int): (padded: int)
    ensures padded % 512 == 0 && size <= padded < size + 512
  {
    (size + 511) / 512 * 512
  }

  /** Reads one archive from its front. */
  function Parse(buf: Bytes, r: Reader, sha: Bytes -> Bytes): Parsed
    decreases |buf|
  {
    if |buf| < BLOCK || ZeroBlock(buf[..BLOCK]) then Files(r.files)
    else
      var header := buf[..BLOCK];
      var size := SizeOf(header[124..136]);
      if BLOCK + size > |buf| then Corrupt
      else if size <= -BLOCK then Backwards
      else
        var data := if size < 0 then [] else buf[BLOCK..BLOCK + size];
        var next := Take(r, header, data, sha);
        if BLOCK + RoundUp(size) > |buf| then Files(next.files)
        else Parse(buf[BLOCK + RoundUp(size)..], next, sha)
  }

  function ParseTar(buf: Bytes, sha: Bytes -> Bytes): Parsed {
    Parse(buf, Reader(None, map[]), sha)
  }

  /** One round of the reader, said of the whole buffer and an offset into it. */
  lemma ParseAt(buf: Bytes, offset: nat, r: Reader, sha: Bytes -> Bytes)
    requires offset + BLOCK <= |buf|
    ensures var header := buf[offset..offset + BLOCK]; var size := SizeOf(header[124..136]); var start := offset + BLOCK;
      Parse(buf[offset..], r, sha) ==
        if ZeroBlock(header) then Files(r.files)
        else if start + size > |buf| then Corrupt
        else if size <= -BLOCK then Backwards
        else
          var next := Take(r, header, if size < 0 then [] else buf[start..start + size], sha);
          if start + RoundUp(size) > |buf| then Files(next.files)
          else Parse(buf[start + RoundUp(size)..], next, sha)
  {
    hide CutNul, SizeOf, NameOf, PaxPath, IndexOfSlash, Take, ZeroBlock;
    var rest := buf[offset..];
    var header := buf[offset..offset + BLOCK];
    var size := SizeOf(header[124..136]);
    assert rest[..BLOCK] == header;
    if 0 <= size && BLOCK + size <= |rest| {
      assert rest[BLOCK..BLOCK + size] == buf[offset + BLOCK..offset + BLOCK + size];
    }
    if -BLOCK < size && BLOCK + RoundUp(size) <= |rest| {
      assert rest[BLOCK + RoundUp(size)..] == buf[offset + BLOCK + RoundUp(size)..];
    }
  }

  lemma ParseEndsBelowABlock(buf: Bytes, r: Reader, sha: Bytes -> Bytes)
    requires |buf| < BLOCK
    ensures Parse(buf, r, sha) == Files(r.files)
  {
  }

  /** The reader as it runs: an offset into the buffer, always at a block boundary. */
  method ParseTarToSha256Map(tarBuf: Bytes, sha: Bytes -> Bytes) returns (result: Parsed)
    ensures result == ParseTar(tarBuf, sha)
  {
    hide Parse, CutNul, SizeOf, NameOf, PaxPath, IndexOfSlash, Take, ZeroBlock;
    var files: map<Bytes, Bytes> := map[];
    var offset := 0;
    var paxPathOverride: Option<Bytes> := None;
    assert tarBuf[0..] == tarBuf;
    while offset + BLOCK <= |tarBuf|
      invariant 0 <= offset && offset % BLOCK == 0
      invariant ParseTar(tarBuf, sha) ==
        if offset <= |tarBuf| then Parse(tarBuf[offset..], Reader(paxPathOverride, files), sha) else Files(files)
      decreases |tarBuf| - offset
    {
      ParseAt(tarBuf, offset, Reader(paxPathOverride, files), sha);
      var header := tarBuf[offset..offset + BLOCK];
      if ZeroBlock(header) {
        return Files(files);
      }
      var size := SizeOf(header[124..136]);
      var dataStart := offset + BLOCK;
      var dataEnd := dataStart + size;
      if dataEnd > |tarBuf| {
        return Corrupt;
      }
      if size <= -BLOCK {
        return Backwards;
      }
      var content := if dataEnd < dataStart then [] else tarBuf[dataStart..dataEnd];
      paxPathOverride, files := ReadEntry(header, content, paxPathOverride, files, sha);
      offset := dataStart + RoundUp(size);
    }
    if offset <= |tarBuf| {
      ParseEndsBelowABlock(tarBuf[offset..], Reader(paxPathOverride, files), sha);
    }
    return Files(files);
  }

  method ReadEntry(header: Bytes, content: Bytes, pending: Option<Bytes>, known: map<Bytes, Bytes>, sha: Bytes -> Bytes)
    returns (paxPathOverride: Option<Bytes>, files: map<Bytes, Bytes>)
    requires |header| == BLOCK
    ensures Reader(paxPathOverride, files) == Take(Reader(pending, known), header, content, sha)
  {
    paxPathOverride, files := pending, known;
    var typeflag := header[156];
    if typeflag == 'x' {
      var m := PaxPath(content, 0);
      if m.Some? {
        paxPathOverride := m;
      }
    } else if typeflag == '0' || typeflag == '\0' {
      var effectiveName := if paxPathOverride.Some? then paxPathOverride.value else NameOf(header);
      paxPathOverride := None;
      var slashIdx := IndexOfSlash(effectiveName);
      if slashIdx > 0 && slashIdx < |effectiveName| - 1 {
        files := files[effectiveName[slashIdx + 1..] := sha(content)];
      }
    } else if typeflag != 'g' {
      paxPathOverride := None;
    }
  }
}
