/** Stored arrays gathered in a ZIP file that is extended in place, and read back by a scan from its start. */
module NpzArchive {
  import opened Words
  import opened Wrappers
  import opened NpyHeader

  // ----- a file with a position

  /** `c` after `s` has been written at `p`; a gap past the end is filled with zeros. */
  function Overwritten(c: string, p: nat, s: string): string {
    if p > |c| then c + seq(p - |c|, _ => 0 as char) + s
    else if p + |s| > |c| then c[..p] + s
    else c[..p] + s + c[p + |s|..]
  }

  class File {
    var content: string
    var pos: nat

    constructor (content: string)
      ensures this.content == content && pos == 0
    {
      this.content, pos := content, 0;
    }

    method Truncate()
      modifies this
      ensures content == "" && pos == 0
    {
      content, pos := "", 0;
    }

    method Seek(p: nat)
      modifies this`pos
      ensures pos == p
    {
      pos := p;
    }

    /** Seeking back from the end fails if there is not that much. */
    method SeekBack(n: nat)
      modifies this`pos
      ensures pos == if n <= |content| then |content| - n else old(pos)
    {
      if n <= |content| {
        pos := |content| - n;
      }
    }

    method Read(n: nat) returns (s: string)
      modifies this`pos
      ensures pos == old(pos) + |s| && s == if old(pos) <= |content| then Sub(content, old(pos), n) else ""
    {
      s := if pos <= |content| then Sub(content, pos, n) else "";
      pos := pos + |s|;
    }

    method Write(s: string)
      modifies this
      ensures content == Overwritten(old(content), old(pos), s) && pos == old(pos) + |s|
    {
      content := Overwritten(content, pos, s);
      pos := pos + |s|;
    }

    /** Up to `n` characters, not past a line end. */
    method GetLine(n: nat) returns (s: string)
      modifies this`pos
      ensures pos == old(pos) + |s| && s == if old(pos) <= |content| then FirstLine(content[old(pos)..], n) else ""
    {
      s := "";
      if pos <= |content| {
        s := LineOf(content[pos..], n);
      }
      pos := pos + |s|;
    }
  }

  method LineOf(s: string, n: nat) returns (line: string)
    ensures line == FirstLine(s, n)
  {
    var k := 0;
    while k < |s| && k < n && s[k] != '\n'
      invariant k <= |s| && k <= n && LineEnd(s, 0, n) == LineEnd(s, k, n)
    {
      k := k + 1;
    }
    if k < |s| && k < n {
      k := k + 1;
    }
    line := s[..k];
  }

  /** Where a line of at most `n` characters ends, looking from `k` on. */
  function LineEnd(s: string, k: nat, n: nat): (end: nat)
    requires k <= |s| && k <= n
    ensures k <= end <= |s| && end <= n
    decreases |s| - k
  {
    if k == |s| || k == n then k else if s[k] == '\n' then k + 1 else LineEnd(s, k + 1, n)
  }

  function FirstLine(s: string, n: nat): (line: string)
    ensures |line| <= n && line <= s
  {
    s[..LineEnd(s, 0, n)]
  }

  lemma {:induction false} LineEndIs(s: string, k: nat, end: nat, n: nat)
    requires k <= end < |s| && end < n && s[end] == '\n' && forall i :: k <= i < end ==> s[i] != '\n'
    ensures LineEnd(s, k, n) == end + 1
    decreases end - k
  {
    if k < end {
      LineEndIs(s, k + 1, end, n);
    }
  }

  lemma FirstLineIs(line: string, rest: string, n: nat)
    requires |line| < n && '\n' !in line
    ensures FirstLine(line + ("\n" + rest), n) == line + "\n"
  {
    var s := line + ("\n" + rest);
    assert forall i :: 0 <= i < |line| ==> s[i] == line[i];
    LineEndIs(s, 0, |line|, n);
    assert s[..|line| + 1] == line + "\n";
  }

  // ----- numbers in bytes

  function Four(x: nat): (s: string)
    ensures |s| == 4
  {
    Two(x % 0x1_0000) + Two(x / 0x1_0000 % 0x1_0000)
  }

  function Word(s: string, i: nat): nat
    requires i + 2 <= |s|
  {
    s[i] as int + 256 * s[i + 1] as int
  }

  function Long(s: string, i: nat): nat
    requires i + 4 <= |s|
  {
    Word(s, i) + 0x1_0000 * Word(s, i + 2)
  }

  lemma WordAt(s: string, i: nat, x: nat)
    requires i + 2 <= |s| && s[i..i + 2] == Two(x) && x < 0x1_0000
    ensures Word(s, i) == x
  {
    assert s[i..i + 2][0] == s[i] && s[i..i + 2][1] == s[i + 1];
  }

  lemma FourLong(x: nat)
    ensures Long(Four(x), 0) == x % 0x1_0000_0000
  {
    hide Two, Word;
    var low, high := x % 0x1_0000, x / 0x1_0000 % 0x1_0000;
    var s := Four(x);
    assert s[..2] == Two(low) && s[2..4] == Two(high);
    WordAt(s, 0, low);
    WordAt(s, 2, high);
    TwoHalves(x);
  }

  lemma TwoHalves(x: nat)
    ensures x % 0x1_0000_0000 == x % 0x1_0000 + 0x1_0000 * (x / 0x1_0000 % 0x1_0000)
  {
    var q := x / 0x1_0000;
    assert x == q * 0x1_0000 + x % 0x1_0000 && q == q / 0x1_0000 * 0x1_0000 + q % 0x1_0000;
  }

  lemma LongAt(s: string, i: nat, x: nat)
    requires i + 4 <= |s| && s[i..i + 4] == Four(x) && x < 0x1_0000_0000
    ensures Long(s, i) == x
  {
    assert s[i..i + 4][0] == s[i] && s[i..i + 4][1] == s[i + 1];
    assert s[i..i + 4][2] == s[i + 2] && s[i..i + 4][3] == s[i + 3];
    FourLong(x);
  }

  // ----- the archive

  /** One stored array; `crc` stands for the checksum function, which readers ignore. */
  datatype Entry = Entry(name: string, t: ElementType, shape: seq<nat>, data: string)

  type Checksum = string -> nat

  function FileName(e: Entry): string {
    e.name + ".npy"
  }

  function Body(e: Entry): string
    requires e.shape != []
  {
    Header(e.t, e.shape) + e.data
  }

  /** Version, flags and method; times, checksum and sizes; lengths of the name and of the extra field. */
  function SharedOf(code: nat, nbytes: nat, nameLen: nat): (s: string)
    ensures |s| == 26
  {
    (Two(20) + Two(0)) + Two(0) + (Two(0) + Two(0) + Four(code) + Four(nbytes) + Four(nbytes)) + Two(nameLen) + Two(0)
  }

  /** The 26 bytes that a local header shares with the central record. */
  function Shared(e: Entry, crc: Checksum): (s: string)
    requires e.shape != []
    ensures |s| == 26
  {
    SharedOf(crc(Body(e)), |Body(e)|, |FileName(e)|)
  }

  function LocalHeader(e: Entry, crc: Checksum): (s: string)
    requires e.shape != []
  {
    "PK" + Two(0x0403) + Shared(e, crc) + FileName(e)
  }

  function Local(e: Entry, crc: Checksum): (s: string)
    requires e.shape != []
  {
    LocalHeader(e, crc) + Header(e.t, e.shape) + e.data
  }

  function Central(e: Entry, crc: Checksum, offset: nat): (s: string)
    requires e.shape != []
    ensures |s| == 46 + |FileName(e)|
  {
    "PK" + Two(0x0201) + Two(20) + Shared(e, crc) + Two(0) + Two(0) + Two(0) + Four(0) + Four(offset) + FileName(e)
  }

  function Footer(count: nat, size: nat, offset: nat): (s: string)
    ensures |s| == 22
  {
    "PK" + Two(0x0605) + Two(0) + Two(0) + Two(count) + Two(count) + Four(size) + Four(offset) + Two(0)
  }

  ghost predicate Shaped(es: seq<Entry>) {
    forall i :: 0 <= i < |es| ==> es[i].shape != []
  }

  ghost function Locals(es: seq<Entry>, crc: Checksum): string
    requires Shaped(es)
  {
    if es == [] then "" else Locals(es[..|es| - 1], crc) + Local(es[|es| - 1], crc)
  }

  ghost function Centrals(es: seq<Entry>, crc: Checksum): string
    requires Shaped(es)
  {
    if es == [] then ""
    else
      var m := |es| - 1;
      Centrals(es[..m], crc) + Central(es[m], crc, |Locals(es[..m], crc)|)
  }

  ghost function Layout(locals: string, directory: string, count: nat): string {
    locals + directory + Footer(count, |directory|, |locals|)
  }

  /** Local members, then the central directory, then the footer, and nothing else. */
  ghost function Archive(es: seq<Entry>, crc: Checksum): string
    requires Shaped(es)
  {
    Layout(Locals(es, crc), Centrals(es, crc), |es|)
  }

  /** Counts, sizes and offsets fit their fields. */
  ghost predicate Fits(es: seq<Entry>, crc: Checksum) {
    Shaped(es) && |es| < 0x1_0000 && |Locals(es, crc)| < 0x1_0000_0000 && |Centrals(es, crc)| < 0x1_0000_0000
  }

  datatype Directory = Directory(count: nat, size: nat, offset: nat)

  /** The last 22 bytes, if they are a footer as the reader wants it. */
  function FooterOf(content: string): Option<Directory> {
    if |content| < 22 then None
    else
      var f := content[|content| - 22..];
      if Word(f, 4) == 0 && Word(f, 6) == 0 && Word(f, 8) == Word(f, 10) && Word(f, 20) == 0
      then Some(Directory(Word(f, 10), Long(f, 12), Long(f, 16))) else None
  }

  method ParseZipFooter(fp: File) returns (d: Option<Directory>)
    requires fp.pos == 0
    modifies fp`pos
    ensures d == FooterOf(fp.content)
  {
    fp.SeekBack(22);
    var footer := fp.Read(22);
    if |footer| != 22 {
      return None;
    }
    var diskNo, diskStart, nrecsOnDisk, nrecs := Word(footer, 4), Word(footer, 6), Word(footer, 8), Word(footer, 10);
    var globalHeaderSize, globalHeaderOffset, commentLen := Long(footer, 12), Long(footer, 16), Word(footer, 20);
    if diskNo != 0 || diskStart != 0 || nrecsOnDisk != nrecs || commentLen != 0 {
      return None;
    }
    d := Some(Directory(nrecs, globalHeaderSize, globalHeaderOffset));
  }

  lemma FooterSlices(a: string, z: string, n: string, size: string, offset: string)
    requires |a| == 4 && |z| == |n| == 2 && |size| == |offset| == 4
    ensures var f := a + z + z + n + n + size + offset + z;
            && |f| == 22 && f[4..6] == f[6..8] == f[20..22] == z && f[8..10] == f[10..12] == n
            && f[12..16] == size && f[16..20] == offset
  {
  }

  lemma FooterWords(count: nat, size: nat, offset: nat)
    requires count < 0x1_0000
    ensures var f := Footer(count, size, offset);
            Word(f, 4) == 0 && Word(f, 6) == 0 && Word(f, 8) == count && Word(f, 10) == count && Word(f, 20) == 0
  {
    hide Two, Four, Word;
    var f := Footer(count, size, offset);
    FooterSlices("PK" + Two(0x0605), Two(0), Two(count), Four(size), Four(offset));
    WordAt(f, 4, 0);
    WordAt(f, 6, 0);
    WordAt(f, 8, count);
    WordAt(f, 10, count);
    WordAt(f, 20, 0);
  }

  lemma FooterRead(count: nat, size: nat, offset: nat)
    requires count < 0x1_0000 && size < 0x1_0000_0000 && offset < 0x1_0000_0000
    ensures FooterOf(Footer(count, size, offset)) == Some(Directory(count, size, offset))
  {
    hide Two, Four, Word, Long;
    var f := Footer(count, size, offset);
    assert f[|f| - 22..] == f;
    FooterWords(count, size, offset);
    FooterSlices("PK" + Two(0x0605), Two(0), Two(count), Four(size), Four(offset));
    LongAt(f, 12, size);
    LongAt(f, 16, offset);
  }

  // ----- adding an array

  function Product(shape: seq<nat>): nat {
    if shape == [] then 1 else Product(shape[..|shape| - 1]) * shape[|shape| - 1]
  }

  lemma WrapProduct(a: int, x: int)
    ensures Wrap(Wrap(a) * x) == Wrap(a * x)
  {
    var k :| Wrap(a) == a + k * 0x1_0000_0000;
    hide Wrap;
    assert Wrap(a) * x == a * x + (k * x) * 0x1_0000_0000;
    WrapPeriod(Wrap(a) * x, a * x, k * x);
  }

  lemma WrapPeriod(x: int, y: int, k: int)
    requires x == y + k * 0x1_0000_0000
    ensures Wrap(x) == Wrap(y)
  {
  }

  /** The number of elements, accumulated in an `int`: right if it fits one. */
  method Accumulate(shape: seq<nat>) returns (n: int)
    ensures n == Wrap(Product(shape)) && (Product(shape) <= INT_MAX ==> n == Product(shape))
  {
    n := 1;
    for i := 0 to |shape|
      invariant n == Wrap(Product(shape[..i]))
    {
      assert shape[..i + 1][..i] == shape[..i];
      WrapProduct(Product(shape[..i]), shape[i]);
      n := Wrap(n * shape[i]);
    }
    assert shape[..|shape|] == shape;
  }

  lemma WriteTwice(c: string, p: nat, a: string, b: string)
    ensures p <= |c| ==> Overwritten(Overwritten(c, p, a), p + |a|, b) == Overwritten(c, p, a + b)
  {
    if p <= |c| {
      var d := Overwritten(c, p, a);
      assert d[..p + |a|] == c[..p] + a;
      if p + |a| + |b| <= |c| {
        assert d[p + |a| + |b|..] == c[p + |a| + |b|..];
      }
    }
  }

  /** The caller's data match the shape, and are few enough to count in an `int`. */
  ghost predicate Sized(e: Entry) {
    e.shape != [] && |e.data| == Product(e.shape) * e.t.size && Product(e.shape) <= INT_MAX
  }

  /** The headers of the new member: its local header, and its record in the central directory. */
  method MakeHeaders(e: Entry, crc: Checksum, npyHeader: string, nbytes: nat, offset: nat, globalHeader: string)
    returns (local: string, global: string)
    requires e.shape != [] && npyHeader == Header(e.t, e.shape) && nbytes == |Body(e)|
    ensures local == LocalHeader(e, crc) && global == globalHeader + Central(e, crc, offset)
  {
    var code := crc(npyHeader + e.data);
    local := "PK" + Two(0x0403);
    var shared := SharedOf(code, nbytes, |FileName(e)|);
    local := local + shared;
    local := local + FileName(e);
    assert local[4..30] == shared;
    var record := "PK" + Two(0x0201) + Two(20) + local[4..30] + Two(0) + Two(0) + Two(0) + Four(0) + Four(offset)
        + FileName(e);
    global := globalHeader + record;
  }

  /** The five writes at `offset` replace everything from there on. */
  method WriteAll(fp: File, local: string, header: string, data: string, global: string, footer: string)
    modifies fp
    ensures old(fp.pos) <= |old(fp.content)| <= old(fp.pos) + |local + header + data + global + footer| ==>
              fp.content == old(fp.content)[..old(fp.pos)] + (local + header + data + global + footer)
  {
    ghost var c, p := fp.content, fp.pos;
    fp.Write(local);
    WriteTwice(c, p, local, header);
    fp.Write(header);
    WriteTwice(c, p, local + header, data);
    fp.Write(data);
    WriteTwice(c, p, local + header + data, global);
    fp.Write(global);
    WriteTwice(c, p, local + header + data + global, footer);
    fp.Write(footer);
  }

  /** A new member at `offset`, the directory with it, and their footer. */
  ghost function Added(member: string, directory: string, count: nat, offset: nat): (s: string)
    ensures |s| == |member| + |directory| + 22
  {
    member + directory + Footer(count, |directory|, offset + |member|)
  }

  lemma LocalsMore(es: seq<Entry>, e: Entry, crc: Checksum)
    requires Shaped(es) && e.shape != []
    ensures Shaped(es + [e]) && Locals(es + [e], crc) == Locals(es, crc) + Local(e, crc)
  {
    assert (es + [e])[..|es|] == es;
  }

  lemma CentralsMore(es: seq<Entry>, e: Entry, crc: Checksum)
    requires Shaped(es) && e.shape != []
    ensures Shaped(es + [e]) && Centrals(es + [e], crc) == Centrals(es, crc) + Central(e, crc, |Locals(es, crc)|)
  {
    assert (es + [e])[..|es|] == es;
  }

  lemma Appended(l: string, x: string, g: string, count: nat)
    ensures Layout(l + x, g, count) == l + Added(x, g, count, |l|)
  {
    var f := Footer(count, |g|, |l| + |x|);
    Assoc(l, x, g);
    Assoc(l, x + g, f);
  }

  /** The archive with one more member. */
  lemma ArchiveMore(es: seq<Entry>, e: Entry, crc: Checksum)
    requires Shaped(es) && e.shape != []
    ensures Shaped(es + [e])
    ensures var l := Locals(es, crc);
            Archive(es + [e], crc) == l + Added(Local(e, crc), Centrals(es, crc) + Central(e, crc, |l|), |es| + 1, |l|)
  {
    LocalsMore(es, e, crc);
    CentralsMore(es, e, crc);
    Appended(Locals(es, crc), Local(e, crc), Centrals(es + [e], crc), |es| + 1);
  }

  lemma Parts(l: string, g: string, f: string)
    requires |f| == 22
    ensures var a := l + g + f; FooterOf(a) == FooterOf(f) && a[..|l|] == l && Sub(a, |l|, |g|) == g
  {
    var a := l + g + f;
    assert a[|a| - 22..] == f && f[|f| - 22..] == f;
  }

  lemma ArchiveParts(es: seq<Entry>, crc: Checksum)
    requires Fits(es, crc)
    ensures var a, n := Archive(es, crc), |Locals(es, crc)|;
            && FooterOf(a) == Some(Directory(|es|, |Centrals(es, crc)|, n))
            && a[..n] == Locals(es, crc) && Sub(a, n, |Centrals(es, crc)|) == Centrals(es, crc)
            && |a| == n + |Centrals(es, crc)| + 22
  {
    var n, size := |Locals(es, crc)|, |Centrals(es, crc)|;
    FooterRead(|es|, size, n);
    Parts(Locals(es, crc), Centrals(es, crc), Footer(|es|, size, n));
  }

  datatype Opened = Opened(count: nat, offset: nat, directory: string)

  /** Finding the directory of an existing archive; new members go where it begins. */
  method OpenArchive(fp: File) returns (r: Option<Opened>)
    requires fp.pos == 0
    modifies fp`pos
    ensures var d := FooterOf(fp.content);
            d.Some? && d.value.offset + d.value.size <= |fp.content| ==>
              r == Some(Opened(d.value.count, d.value.offset, Sub(fp.content, d.value.offset, d.value.size)))
    ensures r.Some? ==> fp.pos == r.value.offset
  {
    var d := ParseZipFooter(fp);
    if d.None? {
      return None;
    }
    fp.Seek(d.value.offset);
    var globalHeader := fp.Read(d.value.size);
    if |globalHeader| != d.value.size {
      return None;
    }
    fp.Seek(d.value.offset);
    r := Some(Opened(d.value.count, d.value.offset, globalHeader));
  }

  method WriteMember(fp: File, e: Entry, crc: Checksum, count: nat, offset: nat, directory: string)
    requires Sized(e) && fp.pos == offset
    modifies fp
    ensures old(offset <= |fp.content| <= offset + |directory| + 22) ==>
              fp.content == old(fp.content)[..offset] +
                Added(Local(e, crc), directory + Central(e, crc, offset), count + 1, offset)
  {
    var npyHeader := CreateNpyHeader(e.t, e.shape);
    var nels := Accumulate(e.shape);
    var nbytes := nels * e.t.size + |npyHeader|;
    var local, global := MakeHeaders(e, crc, npyHeader, nbytes, offset, directory);
    var footer := Footer(count + 1, |global|, offset + nbytes + |local|);
    assert |Local(e, crc)| == nbytes + |local|;
    WriteAll(fp, local, npyHeader, e.data, global, footer);
  }

  method SaveNew(fp: File, e: Entry, crc: Checksum)
    requires Sized(e)
    modifies fp
    ensures fp.content == Archive([e], crc)
  {
    hide Local, Central, Added, Archive;
    fp.Truncate();
    WriteMember(fp, e, crc, 0, 0, "");
    ArchiveMore([], e, crc);
    assert [] + [e] == [e] && "" + fp.content == fp.content;
  }

  method SaveAppending(fp: File, e: Entry, crc: Checksum, ghost es: seq<Entry>) returns (ok: bool)
    requires Sized(e) && fp.pos == 0
    modifies fp
    ensures Fits(es, crc) && old(fp.content) == Archive(es, crc) ==>
              ok && fp.content == Archive(es + [e], crc) && |fp.content| > |old(fp.content)|
  {
    hide Local, Central, Locals, Centrals;
    ghost var known := Fits(es, crc) && fp.content == Archive(es, crc);
    if known {
      ArchiveParts(es, crc);
      ArchiveMore(es, e, crc);
    }
    var found := OpenArchive(fp);
    if found.None? {
      return false;
    }
    WriteMember(fp, e, crc, found.value.count, found.value.offset, found.value.directory);
    ok := true;
  }

  /** Saving array `e`: into a new archive, or, appending, into the archive of `es`, whose central directory and
      footer it replaces; the file always grows, so nothing of them is left. */
  method NpzSave(fp: File, append: bool, e: Entry, crc: Checksum, ghost es: seq<Entry>) returns (ok: bool)
    requires Sized(e) && fp.pos == 0
    modifies fp
    ensures append && Fits(es, crc) && old(fp.content) == Archive(es, crc) ==>
              ok && fp.content == Archive(es + [e], crc) && |fp.content| > |old(fp.content)|
    ensures !append ==> ok && fp.content == Archive([e], crc)
  {
    if append {
      ok := SaveAppending(fp, e, crc, es);
    } else {
      SaveNew(fp, e, crc);
      ok := true;
    }
  }

  // ----- loading

  datatype NpyArray = NpyArray(shape: seq<nat>, wordSize: nat, typeName: string, data: string)

  function ArrayOf(e: Entry): NpyArray {
    NpyArray(e.shape, e.t.size, TypeName(e.t.kind, e.t.size), e.data)
  }

  /** Arrays whose header line fits the reader's buffer, with names and dimensions that fit their fields. */
  ghost predicate Loadable(e: Entry) {
    && Sized(e) && Writable(e.t) && |Line(e.t, e.shape)| <= 256 && |FileName(e)| < 0x1_0000
    && forall i :: 0 <= i < |e.shape| ==> e.shape[i] <= INT_MAX
  }

  /** A text up to its first zero character. */
  function UpToZero(s: string): string {
    s[..ZeroAt(s, 0)]
  }

  function ZeroAt(s: string, k: nat): (end: nat)
    requires k <= |s|
    ensures k <= end <= |s|
    decreases |s| - k
  {
    if k == |s| || s[k] == 0 as char then k else ZeroAt(s, k + 1)
  }

  lemma {:induction false} NoZeroFrom(s: string, k: nat)
    requires k <= |s| && forall i :: 0 <= i < |s| ==> s[i] != 0 as char
    ensures ZeroAt(s, k) == |s|
    decreases |s| - k
  {
    if k < |s| {
      NoZeroFrom(s, k + 1);
    }
  }

  lemma NoZero(s: string)
    requires 0 as char !in s
    ensures UpToZero(s) == s
  {
    NoZeroFrom(s, 0);
  }

  /** From `p` on: what is read, and where reading stops. */
  datatype At<T> = At(value: T, next: nat)

  predicate IsLine(s: string) {
    s != "" && s[|s| - 1] == '\n'
  }

  /** What a header line of which `text` is the part before any zero character amounts to. */
  function FromText(text: string, next: nat): Option<At<Info>> {
    if !IsLine(text) then None
    else
      var info := ParseText(text);
      if info.None? then None else Some(At(info.value, next))
  }

  /** The header at `p`: eleven bytes, then a line. */
  function HeaderAt(c: string, p: nat): (r: Option<At<Info>>)
    ensures r.Some? ==> p <= r.value.next <= |c|
  {
    if p + 11 > |c| then None
    else
      var line := FirstLine(c[p + 11..], 255);
      FromText(UpToZero(line), p + 11 + |line|)
  }

  method ParseNpyHeader(fp: File) returns (r: Option<Info>)
    modifies fp`pos
    ensures var h := HeaderAt(fp.content, old(fp.pos));
            if h.None? then r.None? else r == Some(h.value.value) && fp.pos == h.value.next
    ensures fp.pos >= old(fp.pos) && (old(fp.pos) <= |fp.content| ==> fp.pos <= |fp.content|)
  {
    var preamble := fp.Read(11);
    if |preamble| != 11 {
      return None;
    }
    var line := fp.GetLine(255);
    var header := UpToZero(line);
    if !IsLine(header) {
      return None;
    }
    r := ParseHeaderText(header);
  }

  /** The array at `p`: its header, and as many bytes as that calls for. */
  function ArrayAt(c: string, p: nat): (r: Option<At<NpyArray>>)
    ensures r.Some? ==> p <= r.value.next <= |c|
  {
    var h := HeaderAt(c, p);
    if h.None? then None else DataAt(c, h.value.value, h.value.next)
  }

  function DataAt(c: string, info: Info, p: nat): (r: Option<At<NpyArray>>)
    ensures r.Some? ==> p <= r.value.next <= |c|
  {
    var n := NumBytes(info);
    if p + n > |c| then None
    else Some(At(NpyArray(info.shape, info.wordSize, info.typeName, c[p..p + n]), p + n))
  }

  /** `size_t` counts modulo this. */
  const SIZE_MODULUS: nat := 0x1_0000_0000_0000_0000

  function NumBytes(info: Info): nat {
    Product(info.shape) * info.wordSize % SIZE_MODULUS
  }

  lemma SizePeriod(x: int, y: int, k: int)
    requires x == y + k * SIZE_MODULUS
    ensures x % SIZE_MODULUS == y % SIZE_MODULUS
  {
  }

  lemma SizeProduct(a: nat, x: nat)
    ensures a % SIZE_MODULUS * x % SIZE_MODULUS == a * x % SIZE_MODULUS
  {
    var r, q := a % SIZE_MODULUS, a / SIZE_MODULUS;
    assert a == r + q * SIZE_MODULUS;
    assert a * x == r * x + q * x * SIZE_MODULUS;
    SizePeriod(a * x, r * x, q * x);
  }

  /** The bytes of an array, as its constructor counts them. */
  method CountBytes(info: Info) returns (n: nat)
    ensures n == NumBytes(info)
  {
    n := 1;
    for i := 0 to |info.shape|
      invariant n == Product(info.shape[..i]) % SIZE_MODULUS
    {
      assert info.shape[..i + 1][..i] == info.shape[..i];
      SizeProduct(Product(info.shape[..i]), info.shape[i]);
      n := n * info.shape[i] % SIZE_MODULUS;
    }
    assert info.shape[..|info.shape|] == info.shape;
    SizeProduct(Product(info.shape), info.wordSize);
    n := n * info.wordSize % SIZE_MODULUS;
  }

  /** A loaded array has the bytes its shape calls for if and only if their number is one that `size_t` can hold. */
  lemma BytesIff(c: string, p: nat)
    requires ArrayAt(c, p).Some?
    ensures var a := ArrayAt(c, p).value.value;
            |a.data| == Product(a.shape) * a.wordSize <==> Product(a.shape) * a.wordSize < SIZE_MODULUS
  {
    hide HeaderAt, Product;
  }

  const WRAPPING_SHAPE: seq<nat> := [0x4000_0000, 0x4000_0000, 16]

  lemma WrappingProduct()
    ensures Product(WRAPPING_SHAPE) == SIZE_MODULUS
  {
    assert WRAPPING_SHAPE[..2] == [0x4000_0000, 0x4000_0000] && WRAPPING_SHAPE[..2][..1] == [0x4000_0000];
    assert Product(WRAPPING_SHAPE[..2][..1]) == Product([]) * 0x4000_0000;
    assert Product(WRAPPING_SHAPE[..2]) == 0x1000_0000_0000_0000;
  }

  /** For this shape of single bytes none are read. */
  lemma BytesWrap(c: string, p: nat)
    requires p <= |c|
    ensures DataAt(c, Info(1, WRAPPING_SHAPE, "uint8"), p) == Some(At(NpyArray(WRAPPING_SHAPE, 1, "uint8", ""), p))
  {
    hide Product;
    WrappingProduct();
    assert c[p..p + 0] == "";
  }

  method LoadTheNpyFile(fp: File) returns (r: Option<NpyArray>)
    modifies fp`pos
    ensures var a := ArrayAt(fp.content, old(fp.pos));
            if a.None? then r.None? else r == Some(a.value.value) && fp.pos == a.value.next
    ensures fp.pos >= old(fp.pos) && (old(fp.pos) <= |fp.content| ==> fp.pos <= |fp.content|)
  {
    hide HeaderAt, NumBytes;
    var info := ParseNpyHeader(fp);
    if info.None? {
      return None;
    }
    var numBytes := CountBytes(info.value);
    var data := fp.Read(numBytes);
    if |data| != numBytes {
      return None;
    }
    r := Some(NpyArray(info.value.shape, info.value.wordSize, info.value.typeName, data));
  }

  /** The member at `p`, the end of the members, or something else: `Compressed` members are not followed here. */
  datatype Member = Member(name: string, loaded: NpyArray) | End | Broken | Compressed

  function MemberAt(c: string, p: nat): (m: At<Member>)
    ensures m.value.Member? ==> p + 30 <= m.next <= |c|
  {
    if p + 30 > |c| then At(Broken, p)
    else
      var local := c[p..p + 30];
      if local[2] != 3 as char || local[3] != 4 as char then At(End, p + 30)
      else NamedAt(c, p + 30, Word(local, 26), Word(local, 28), Word(local, 8))
  }

  /** The rest of a member after its fixed header: name, extra field, array. */
  function NamedAt(c: string, p: nat, nameLen: nat, extraLen: nat, compression: nat): (m: At<Member>)
    ensures m.value.Member? ==> p <= m.next <= |c|
  {
    if p + nameLen + extraLen > |c| || nameLen < 4 then At(Broken, p)
    else if compression != 0 then At(Compressed, p)
    else Named(c[p..p + nameLen - 4], ArrayAt(c, p + nameLen + extraLen), p)
  }

  function Named(name: string, a: Option<At<NpyArray>>, p: nat): At<Member> {
    if a.None? then At(Broken, p) else At(Member(name, a.value.value), a.value.next)
  }

  method ReadExactly(fp: File, n: nat) returns (r: Option<string>)
    requires fp.pos <= |fp.content|
    modifies fp`pos
    ensures r == if old(fp.pos) + n <= |fp.content| then Some(fp.content[old(fp.pos)..old(fp.pos) + n]) else None
    ensures old(fp.pos) <= fp.pos <= |fp.content| && (r.Some? ==> fp.pos == old(fp.pos) + n)
  {
    var s := fp.Read(n);
    r := if |s| == n then Some(s) else None;
  }

  method LoadNamed(fp: File, nameLen: nat, extraLen: nat, compression: nat) returns (m: Member)
    requires fp.pos <= |fp.content|
    modifies fp`pos
    ensures var x := NamedAt(fp.content, old(fp.pos), nameLen, extraLen, compression);
            m == x.value && (m.Member? ==> fp.pos == x.next)
    ensures old(fp.pos) <= fp.pos <= |fp.content|
  {
    hide ArrayAt;
    var varname := ReadExactly(fp, nameLen);
    if varname.None? || nameLen < 4 {
      return Broken;
    }
    var extra := ReadExactly(fp, extraLen);
    if extra.None? {
      return Broken;
    }
    if compression != 0 {
      return Compressed;
    }
    var name := varname.value[..nameLen - 4];
    assert name == fp.content[old(fp.pos)..old(fp.pos) + nameLen - 4];
    m := LoadArray(fp, name);
  }

  method LoadArray(fp: File, name: string) returns (m: Member)
    modifies fp`pos
    ensures var x := Named(name, ArrayAt(fp.content, old(fp.pos)), 0); m == x.value && (m.Member? ==> fp.pos == x.next)
    ensures fp.pos >= old(fp.pos) && (old(fp.pos) <= |fp.content| ==> fp.pos <= |fp.content|)
  {
    var loaded := LoadTheNpyFile(fp);
    m := if loaded.None? then Broken else Member(name, loaded.value);
  }

  method LoadMember(fp: File) returns (m: Member)
    requires fp.pos <= |fp.content|
    modifies fp`pos
    ensures var x := MemberAt(fp.content, old(fp.pos));
            m == x.value && (m.Member? ==> old(fp.pos) + 30 <= fp.pos == x.next)
    ensures old(fp.pos) <= fp.pos <= |fp.content|
  {
    var localHeader := ReadExactly(fp, 30);
    if localHeader.None? {
      return Broken;
    }
    var local := localHeader.value;
    if local[2] != 3 as char || local[3] != 4 as char {
      return End;
    }
    m := LoadNamed(fp, Word(local, 26), Word(local, 28), Word(local, 8));
  }

  datatype Loaded = Loaded(arrays: map<string, NpyArray>) | Failed | OutsideModel

  /** Reading members from `p` on until something else comes. */
  ghost function Scan(c: string, p: nat, arrays: map<string, NpyArray>): Loaded
    decreases |c| - p
  {
    var m := MemberAt(c, p);
    match m.value
    case Member(name, a) => Scan(c, m.next, arrays[name := a])
    case End => Loaded(arrays)
    case Compressed => OutsideModel
    case Broken => Failed
  }

  method NpzLoad(fp: File) returns (r: Loaded)
    requires fp.pos == 0
    modifies fp`pos
    ensures r == Scan(fp.content, 0, map[])
  {
    var arrays: map<string, NpyArray> := map[];
    r := Failed;
    var scanning := true;
    while scanning
      invariant fp.pos <= |fp.content|
      invariant Scan(fp.content, 0, map[]) == if scanning then Scan(fp.content, fp.pos, arrays) else r
      decreases |fp.content| - fp.pos, scanning
    {
      var m := LoadMember(fp);
      if m.Member? {
        arrays := arrays[m.name := m.loaded];
      } else {
        scanning := false;
        r := match m case End => Loaded(arrays) case Compressed => OutsideModel case _ => Failed;
      }
    }
  }

  /** Every stored name with the array last saved under it. */
  ghost function Latest(es: seq<Entry>): map<string, NpyArray> {
    if es == [] then map[] else Latest(es[..|es| - 1])[es[|es| - 1].name := ArrayOf(es[|es| - 1])]
  }

  // ----- what is saved is loaded

  lemma KeysPlain(c: char)
    requires c == '\n' || c == 0 as char
    ensures c !in BEFORE_TYPE && c !in AFTER_TYPE && c !in FORTRAN && c !in SHAPE_KEY && c !in AFTER_SHAPE && c !in "("
  {
  }

  lemma TextPlain(t: ElementType, shape: seq<nat>, n: nat, c: char)
    requires Writable(t) && shape != [] && (c == '\n' || c == 0 as char)
    ensures c !in [t.order, t.kind] && c !in ToString(t.size) && c !in ShapeText(shape) && c !in Spaces(n)
  {
    ShapePlain(shape);
  }

  lemma LacksSeven(a: string, b: string, c: string, d: string, e: string, f: string, g: string, x: char)
    requires x !in a && x !in b && x !in c && x !in d && x !in e && x !in f && x !in g
    ensures x !in (a + (b + (c + (d + (e + f))))) + g
  {
  }

  lemma LacksFour(a: string, b: string, c: string, d: string, x: char)
    requires x !in a && x !in b && x !in c && x !in d
    ensures x !in a + b + c + d
  {
  }

  /** A header line has no line end or zero character before its own. */
  lemma LineLacks(t: ElementType, shape: seq<nat>, body: string, c: char)
    requires Writable(t) && shape != [] && (c == '\n' || c == 0 as char)
    requires body == (TypeText(t) + (FORTRAN + (SHAPE_KEY + ("(" + (ShapeText(shape) + AFTER_SHAPE)))))
                     + Spaces(Padding(|Dictionary(t, shape)|) - 1)
    ensures c !in body
  {
    KeysPlain(c);
    TextPlain(t, shape, Padding(|Dictionary(t, shape)|) - 1, c);
    LacksFour(BEFORE_TYPE, [t.order, t.kind], ToString(t.size), AFTER_TYPE, c);
    LacksSeven(TypeText(t), FORTRAN, SHAPE_KEY, "(", ShapeText(shape), AFTER_SHAPE,
               Spaces(Padding(|Dictionary(t, shape)|) - 1), c);
  }

  lemma LineIs(t: ElementType, shape: seq<nat>) returns (body: string)
    requires Writable(t) && shape != []
    ensures Line(t, shape) == "{" + (body + "\n") && '\n' !in body && 0 as char !in body
  {
    var inner := TypeText(t) + (FORTRAN + (SHAPE_KEY + ("(" + (ShapeText(shape) + AFTER_SHAPE))));
    var blanks := Spaces(Padding(|Dictionary(t, shape)|) - 1);
    body := inner + blanks;
    LineLacks(t, shape, body, '\n');
    LineLacks(t, shape, body, 0 as char);
    Assoc("{", inner, blanks);
    Assoc("{", body, "\n");
  }

  lemma HeaderWritten(t: ElementType, shape: seq<nat>) returns (body: string)
    requires Writable(t) && shape != []
    ensures Header(t, shape) == (MAGIC + Two(|Line(t, shape)|) + "{") + (body + "\n")
    ensures Line(t, shape)[1..] == body + "\n" && |Line(t, shape)| == |body| + 2
    ensures '\n' !in body && 0 as char !in body
  {
    body := LineIs(t, shape);
    Assoc(MAGIC + Two(|Line(t, shape)|), "{", body + "\n");
    assert ("{" + (body + "\n"))[1..] == body + "\n";
  }

  lemma TextAt(a: string, front: string, body: string, b: string)
    requires |front| == 11 && |body| < 255 && '\n' !in body && 0 as char !in body
    ensures var c := a + (front + (body + "\n") + b);
            && |a| + 11 <= |c| && FirstLine(c[|a| + 11..], 255) == body + "\n"
            && UpToZero(body + "\n") == body + "\n"
  {
    var c := a + (front + (body + "\n") + b);
    assert c[|a| + 11..] == body + ("\n" + b);
    FirstLineIs(body, b, 255);
    NoZero(body + "\n");
  }

  lemma LineFound(body: string, info: Info, next: nat)
    requires ParseText(body + "\n") == Some(info)
    ensures FromText(body + "\n", next) == Some(At(info, next))
  {
  }

  lemma HeaderIn(a: string, front: string, body: string, b: string, info: Info)
    requires |front| == 11 && |body| < 255 && '\n' !in body && 0 as char !in body
    requires ParseText(body + "\n") == Some(info)
    ensures HeaderAt(a + (front + (body + "\n") + b), |a|) == Some(At(info, |a| + |front + (body + "\n")|))
  {
    hide FirstLine, UpToZero, FromText, ParseText;
    TextAt(a, front, body, b);
    LineFound(body, info, |a| + |front + (body + "\n")|);
  }

  /** The header written at `|a|` is the header read there. */
  lemma HeaderFound(a: string, t: ElementType, shape: seq<nat>, b: string)
    requires Writable(t) && shape != [] && |Line(t, shape)| <= 256
    requires forall i :: 0 <= i < |shape| ==> shape[i] <= INT_MAX
    ensures HeaderAt(a + (Header(t, shape) + b), |a|)
         == Some(At(Info(t.size, shape, TypeName(t.kind, t.size)), |a| + |Header(t, shape)|))
  {
    hide HeaderAt, Header, Line, ParseText;
    var body := HeaderWritten(t, shape);
    HeaderRoundTrip(t, shape);
    HeaderIn(a, MAGIC + Two(|Line(t, shape)|) + "{", body, b, Info(t.size, shape, TypeName(t.kind, t.size)));
  }

  lemma DataFound(a: string, info: Info, data: string, b: string)
    requires |data| == NumBytes(info)
    ensures DataAt(a + (data + b), info, |a|)
         == Some(At(NpyArray(info.shape, info.wordSize, info.typeName, data), |a| + |data|))
  {
    assert (a + (data + b))[|a|..|a| + |data|] == data;
  }

  /** The array after a header, given that the header is found. */
  lemma ArrayIn(a: string, h: string, info: Info, data: string, b: string)
    requires HeaderAt(a + (h + (data + b)), |a|) == Some(At(info, |a| + |h|)) && |data| == NumBytes(info)
    ensures ArrayAt(a + (h + (data + b)), |a|)
         == Some(At(NpyArray(info.shape, info.wordSize, info.typeName, data), |a| + |h| + |data|))
  {
    hide HeaderAt, DataAt, NumBytes;
    Assoc(a, h, data + b);
    DataFound(a + h, info, data, b);
  }

  lemma SharedSlices(a: string, b: string, c: string, d: string, e: string, front: string)
    requires |front| == 4 && |a| == 4 && |b| == 2 && |c| == 16 && |d| == 2 && |e| == 2
    ensures var f := front + (a + b + c + d + e);
            f[8..10] == b && f[26..28] == d && f[28..30] == e && f[..4] == front && |f| == 30
  {
  }

  lemma SharedWords(code: nat, nbytes: nat, nameLen: nat)
    requires nameLen < 0x1_0000
    ensures var f := "PK" + Two(0x0403) + SharedOf(code, nbytes, nameLen);
            && |f| == 30 && f[2] == 3 as char && f[3] == 4 as char
            && Word(f, 26) == nameLen && Word(f, 28) == 0 && Word(f, 8) == 0
  {
    var f := "PK" + Two(0x0403) + SharedOf(code, nbytes, nameLen);
    SharedSlices(Two(20) + Two(0), Two(0), Two(0) + Two(0) + Four(code) + Four(nbytes) + Four(nbytes), Two(nameLen),
        Two(0),
                 "PK" + Two(0x0403));
    WordAt(f, 8, 0);
    WordAt(f, 26, nameLen);
    WordAt(f, 28, 0);
    assert f[..4][2] == f[2] && f[..4][3] == f[3];
  }

  lemma NamedIn(a: string, name: string, rest: string, x: At<NpyArray>)
    requires |name| >= 4 && ArrayAt(a + name + rest, |a + name|) == Some(x)
    ensures NamedAt(a + (name + rest), |a|, |name|, 0, 0) == At(Member(name[..|name| - 4], x.value), x.next)
  {
    hide ArrayAt;
    var c := a + (name + rest);
    Assoc(a, name, rest);
    assert c[|a|..|a| + |name| - 4] == name[..|name| - 4];
  }

  lemma FrontOf(a: string, f: string, b: string)
    ensures (a + (f + b))[|a|..|a| + |f|] == f
  {
  }

  lemma Unfolded(f: string, n: string, h: string, d: string, b: string)
    ensures (f + n + h + d) + b == f + (n + (h + (d + b)))
  {
    Assoc(f + n + h, d, b);
    Assoc(f + n, h, d + b);
    Assoc(f, n, h + (d + b));
  }

  lemma MemberIn(a: string, f: string, name: string, rest: string, x: At<NpyArray>)
    requires |f| == 30 && f[2] == 3 as char && f[3] == 4 as char
    requires Word(f, 26) == |name| >= 4 && Word(f, 28) == 0 && Word(f, 8) == 0
    requires ArrayAt(a + f + name + rest, |a + f + name|) == Some(x)
    ensures MemberAt(a + (f + (name + rest)), |a|) == At(Member(name[..|name| - 4], x.value), x.next)
  {
    FrontOf(a, f, name + rest);
    Assoc(a, f, name + rest);
    NamedIn(a + f, name, rest, x);
  }

  ghost function InfoOf(e: Entry): Info {
    Info(e.t.size, e.shape, TypeName(e.t.kind, e.t.size))
  }

  /** The bytes of an entry can be counted. */
  lemma BytesOfEntry(e: Entry)
    requires Sized(e)
    ensures |e.data| == NumBytes(InfoOf(e))
  {
    hide TypeName, Product;
    var n, size := Product(e.shape), e.t.size;
    assert n * size <= n * INT_MAX;
  }

  /** The array of a loadable entry, wherever it stands. */
  lemma EntryArray(a: string, e: Entry, b: string)
    requires Loadable(e)
    ensures ArrayAt(a + (Header(e.t, e.shape) + (e.data + b)), |a|)
         == Some(At(ArrayOf(e), |a| + |Header(e.t, e.shape)| + |e.data|))
  {
    hide HeaderAt, Header, ArrayAt, NumBytes, Product, TypeName, Line;
    HeaderFound(a, e.t, e.shape, e.data + b);
    BytesOfEntry(e);
    ArrayIn(a, Header(e.t, e.shape), InfoOf(e), e.data, b);
  }

  /** The member written at `|a|` is the member read there. */
  lemma MemberFound(a: string, e: Entry, crc: Checksum, b: string)
    requires Loadable(e)
    ensures MemberAt(a + (Local(e, crc) + b), |a|) == At(Member(e.name, ArrayOf(e)), |a| + |Local(e, crc)|)
  {
    hide Header, ArrayAt, MemberAt, SharedOf, Word;
    var f, h := "PK" + Two(0x0403) + Shared(e, crc), Header(e.t, e.shape);
    SharedWords(crc(Body(e)), |Body(e)|, |FileName(e)|);
    Unfolded(f, FileName(e), h, e.data, b);
    EntryArray(a + f + FileName(e), e, b);
    MemberIn(a, f, FileName(e), h + (e.data + b), At(ArrayOf(e), |a| + |Local(e, crc)|));
    assert FileName(e)[..|FileName(e)| - 4] == e.name;
  }

  // ----- the scan of a whole archive

  ghost predicate AllLoadable(es: seq<Entry>) {
    forall i :: 0 <= i < |es| ==> Loadable(es[i])
  }

  lemma {:induction false} LocalsSplit(es: seq<Entry>, i: nat, crc: Checksum) returns (rest: string)
    requires Shaped(es) && i < |es|
    ensures Locals(es, crc) == Locals(es[..i], crc) + (Local(es[i], crc) + rest)
    decreases |es|
  {
    hide Local;
    var m := |es| - 1;
    if i == m {
      rest := "";
    } else {
      var r := LocalsSplit(es[..m], i, crc);
      assert es[..m][..i] == es[..i];
      rest := r + Local(es[m], crc);
      Assoc(Locals(es[..i], crc), Local(es[i], crc) + r, Local(es[m], crc));
      Assoc(Local(es[i], crc), r, Local(es[m], crc));
    }
  }

  // ----- the central directory, which loading does not read

  lemma CentralSlices(a: string, s: string, z: string, offset: string, name: string)
    requires |a| == 6 && |s| == 26 && |z| == 10 && |offset| == 4
    ensures var r := a + s + z + offset + name;
            |r| == 46 + |name| && r[6..32] == s && r[42..46] == offset && r[46..] == name && r[..6] == a
  {
  }

  /** A record of the directory, field by field. */
  lemma CentralFields(e: Entry, crc: Checksum, offset: nat)
    requires e.shape != [] && offset < 0x1_0000_0000 && |Body(e)| < 0x1_0000_0000 && |FileName(e)| < 0x1_0000
    ensures var r := Central(e, crc, offset);
            && Long(r, 20) == Long(r, 24) == |Body(e)| && Long(r, 42) == offset
            && Word(r, 28) == |FileName(e)| && r[46..46 + |FileName(e)|] == FileName(e) && r[..4] == "PK" + Two(0x0201)
  {
    hide Two, Four, Word, Long, Body, FileName;
    var r, s, code, n := Central(e, crc, offset), Shared(e, crc), crc(Body(e)), |Body(e)|;
    CentralRegroup("PK" + Two(0x0201) + Two(20), s, Two(0), Four(0), Four(offset), FileName(e));
    CentralSlices("PK" + Two(0x0201) + Two(20), s, Two(0) + Two(0) + Two(0) + Four(0), Four(offset), FileName(e));
    SizeSlices(Two(20) + Two(0), Two(0), Two(0) + Two(0) + Four(code), Four(n), Two(|FileName(e)|), Two(0));
    SliceTwice(r, 6, 32, 14, 18);
    SliceTwice(r, 6, 32, 18, 22);
    SliceTwice(r, 6, 32, 22, 24);
    LongAt(r, 20, n);
    LongAt(r, 24, n);
    LongAt(r, 42, offset);
    WordAt(r, 28, |FileName(e)|);
    assert r[..4] == r[..6][..4];
  }

  lemma CentralRegroup(a: string, s: string, z: string, f: string, offset: string, name: string)
    ensures a + s + z + z + z + f + offset + name == a + s + (z + z + z + f) + offset + name
  {
  }

  lemma SizeSlices(a: string, b: string, c: string, n: string, nameLen: string, d: string)
    requires |a| == 4 && |b| == 2 && |c| == 8 && |n| == 4 && |nameLen| == |d| == 2
    ensures var s := a + b + (c + n + n) + nameLen + d;
            |s| == 26 && s[14..18] == n && s[18..22] == n && s[22..24] == nameLen
  {
  }

  lemma SliceTwice(r: string, i: nat, j: nat, k: nat, l: nat)
    requires k <= l && i + l <= j <= |r|
    ensures r[i..j][k..l] == r[i + k..i + l]
  {
    assert forall n :: 0 <= n < l - k ==> r[i..j][k..l][n] == r[i + k..i + l][n];
  }

  lemma {:induction false} CentralsSplit(es: seq<Entry>, i: nat, crc: Checksum) returns (rest: string)
    requires Shaped(es) && i < |es|
    ensures Centrals(es, crc) == Centrals(es[..i], crc) + (Central(es[i], crc, |Locals(es[..i], crc)|) + rest)
    decreases |es|
  {
    hide Central, Locals;
    var m := |es| - 1;
    var last := Central(es[m], crc, |Locals(es[..m], crc)|);
    if i == m {
      rest := "";
    } else {
      var r := CentralsSplit(es[..m], i, crc);
      assert es[..m][..i] == es[..i];
      rest := r + last;
      var c := Central(es[i], crc, |Locals(es[..i], crc)|);
      Assoc(Centrals(es[..i], crc), c + r, last);
      Assoc(c, r, last);
    }
  }

  lemma FieldsInside(c: string, p: nat, r: string)
    requires p + |r| <= |c| && c[p..p + |r|] == r
    ensures forall k :: 0 <= k && k + 2 <= |r| ==> Word(c, p + k) == Word(r, k)
    ensures forall k :: 0 <= k && k + 4 <= |r| ==> Long(c, p + k) == Long(r, k)
  {
    assert forall k :: 0 <= k < |r| ==> c[p + k] == r[k];
  }

  /** Where record `i` of the directory stands. */
  ghost function RecordPlace(es: seq<Entry>, i: nat, crc: Checksum): nat
    requires Shaped(es) && i < |es|
  {
    |Locals(es, crc)| + |Centrals(es[..i], crc)|
  }

  /** At `p` stands a record that names the member of `e`, gives the size of its contents twice, as nothing is
      compressed, and the position where it begins. */
  ghost predicate IsRecordOf(c: string, p: nat, e: Entry, crc: Checksum)
    requires e.shape != []
  {
    && p + 46 + |FileName(e)| <= |c| && c[p..p + 4] == "PK" + Two(0x0201)
    && Word(c, p + 28) == |FileName(e)| && c[p + 46..p + 46 + |FileName(e)|] == FileName(e)
    && Long(c, p + 20) == Long(c, p + 24) == |Body(e)|
    && IsMemberAt(c, Long(c, p + 42), e, crc)
  }

  ghost predicate IsMemberAt(c: string, p: nat, e: Entry, crc: Checksum)
    requires e.shape != []
  {
    p + |Local(e, crc)| <= |c| && c[p..p + |Local(e, crc)|] == Local(e, crc)
  }

  /** The directory has such a record for every member. */
  lemma RecordOfMember(es: seq<Entry>, i: nat, crc: Checksum)
    requires Shaped(es) && Fits(es, crc) && i < |es| && |FileName(es[i])| < 0x1_0000
    ensures IsRecordOf(Archive(es, crc), RecordPlace(es, i, crc), es[i], crc)
  {
    hide Central, Local, Locals, Centrals, FileName, Body, Word, Long, Two, Footer;
    var c, p, e := Archive(es, crc), RecordPlace(es, i, crc), es[i];
    var before := Locals(es[..i], crc);
    var r := Central(e, crc, |before|);
    var more := CentralsSplit(es, i, crc);
    var rest := LocalsSplit(es, i, crc);
    var foot := Footer(|es|, |Centrals(es, crc)|, |Locals(es, crc)|);
    InLayout(before, Local(e, crc), rest, Centrals(es, crc) + foot);
    Assoc(Locals(es, crc), Centrals(es, crc), foot);
    InLayout(Locals(es, crc) + Centrals(es[..i], crc), r, more, foot);
    Assoc(Locals(es, crc), Centrals(es[..i], crc), r + more);
    LocalSize(e, crc);
    CentralFields(e, crc, |before|);
    FieldsInside(c, p, r);
    SliceTwice(c, p, p + |r|, 46, 46 + |FileName(e)|);
    SliceTwice(c, p, p + |r|, 0, 4);
  }

  lemma LocalSize(e: Entry, crc: Checksum)
    requires e.shape != []
    ensures |Body(e)| <= |Local(e, crc)|
  {
  }

  lemma InLayout(a: string, x: string, b: string, c: string)
    ensures var s := a + (x + b) + c; |a| + |x| <= |s| && s[|a|..|a| + |x|] == x
  {
  }

  lemma CentralFront(e: Entry, crc: Checksum, offset: nat)
    requires e.shape != []
    ensures Central(e, crc, offset)[2] == 1 as char
  {
    hide Shared, Four, FileName;
    var front := "PK" + Two(0x0201);
    assert front[2] == 1 as char;
    assert front <= Central(e, crc, offset);
  }

  /** The central directory of an archive that is not empty begins as no member does. */
  lemma {:induction false} CentralsBegin(es: seq<Entry>, crc: Checksum)
    requires Shaped(es) && es != []
    ensures |Centrals(es, crc)| >= 46 && Centrals(es, crc)[2] == 1 as char
  {
    hide Local, Locals, Central;
    var m := |es| - 1;
    if m > 0 {
      CentralsBegin(es[..m], crc);
    } else {
      assert es[..m] == [];
      CentralFront(es[m], crc, |Locals(es[..m], crc)|);
    }
  }

  lemma EndFound(a: string, g: string, f: string)
    requires |g| >= 30 && g[2] == 1 as char
    ensures MemberAt(a + g + f, |a|) == At(End, |a| + 30)
  {
    var c := a + g + f;
    assert c[|a|..|a| + 30][2] == g[2];
  }

  lemma LocalsNext(es: seq<Entry>, i: nat, crc: Checksum)
    requires Shaped(es) && i < |es|
    ensures Locals(es[..i + 1], crc) == Locals(es[..i], crc) + Local(es[i], crc)
    ensures Latest(es[..i + 1]) == Latest(es[..i])[es[i].name := ArrayOf(es[i])]
  {
    hide Local;
    assert es[..i + 1][..i] == es[..i];
  }

  /** The archive from member `i` on. */
  lemma MemberThen(es: seq<Entry>, i: nat, crc: Checksum) returns (b: string)
    requires Shaped(es) && i < |es|
    ensures Archive(es, crc) == Locals(es[..i], crc) + (Local(es[i], crc) + b)
  {
    hide Local, Footer, Centrals, Locals;
    var l, g := Locals(es, crc), Centrals(es, crc);
    var f := Footer(|es|, |g|, |l|);
    var before := Locals(es[..i], crc);
    var rest := LocalsSplit(es, i, crc);
    b := rest + g + f;
    Assoc(before, Local(es[i], crc) + rest, g);
    Assoc(before, Local(es[i], crc) + rest + g, f);
    Assoc(Local(es[i], crc), rest, g);
    Assoc(Local(es[i], crc), rest + g, f);
  }

  lemma {:induction false} ScanFrom(es: seq<Entry>, i: nat, crc: Checksum)
    requires Shaped(es) && AllLoadable(es) && es != [] && i <= |es|
    ensures Scan(Archive(es, crc), |Locals(es[..i], crc)|, Latest(es[..i])) == Loaded(Latest(es))
    decreases |es| - i
  {
    hide Local, MemberAt, Footer, Centrals, Locals, Loadable, Latest;
    if i == |es| {
      assert es[..i] == es;
      CentralsBegin(es, crc);
      EndFound(Locals(es, crc), Centrals(es, crc), Footer(|es|, |Centrals(es, crc)|, |Locals(es, crc)|));
    } else {
      var b := MemberThen(es, i, crc);
      MemberFound(Locals(es[..i], crc), es[i], crc, b);
      LocalsNext(es, i, crc);
      ScanFrom(es, i + 1, crc);
    }
  }

  /** Loading an archive gives every name the array last saved under it: its shape, kind and bytes. */
  lemma ArchiveLoads(es: seq<Entry>, crc: Checksum)
    requires AllLoadable(es) && es != []
    ensures Shaped(es) && Scan(Archive(es, crc), 0, map[]) == Loaded(Latest(es))
  {
    hide Scan;
    assert es[..0] == [];
    ScanFrom(es, 0, crc);
  }

  lemma SavedLoads(es: seq<Entry>, e: Entry, crc: Checksum)
    requires AllLoadable(es) && Loadable(e)
    ensures Shaped(es + [e]) && Sized(e)
    ensures Scan(Archive(es + [e], crc), 0, map[]) == Loaded(Latest(es)[e.name := ArrayOf(e)])
  {
    hide Scan, Archive, Local, Locals;
    var all := es + [e];
    ArchiveLoads(all, crc);
    LocalsNext(all, |es|, crc);
    assert all[..|es|] == es && all[..|es| + 1] == all;
  }

  /** Saving one array and loading the file. */
  method SaveAndLoad(fp: File, append: bool, e: Entry, crc: Checksum, ghost es: seq<Entry>) returns (r: Loaded)
    requires fp.pos == 0 && Loadable(e) && AllLoadable(es)
    requires if append then Fits(es, crc) && fp.content == Archive(es, crc) else es == []
    modifies fp
    ensures r == Loaded(Latest(es)[e.name := ArrayOf(e)])
  {
    hide Scan, Archive, Loadable, Sized, ArrayOf, Latest;
    SavedLoads(es, e, crc);
    assert [] + [e] == [e];
    var ok := NpzSave(fp, append, e, crc, es);
    fp.Seek(0);
    r := NpzLoad(fp);
  }

  lemma FitsOneLess(es: seq<Entry>, e: Entry, crc: Checksum)
    requires Shaped(es) && e.shape != [] && Fits(es + [e], crc)
    ensures Fits(es, crc)
  {
    hide Locals, Centrals, Local, Central;
    LocalsMore(es, e, crc);
    CentralsMore(es, e, crc);
  }

  /** An archive fits its fields if a longer one does. */
  lemma {:induction false} FitsShorter(es: seq<Entry>, k: nat, crc: Checksum)
    requires Shaped(es) && Fits(es, crc) && k <= |es|
    ensures Fits(es[..k], crc)
    decreases |es|
  {
    hide Fits;
    var m := |es| - 1;
    if k <= m {
      assert es[..m] + [es[m]] == es;
      FitsOneLess(es[..m], es[m], crc);
      FitsShorter(es[..m], k, crc);
      assert es[..m][..k] == es[..k];
    } else {
      assert es[..k] == es;
    }
  }

  /** Saving a sequence of arrays, the first into a new file, the others appended, and loading the file. */
  method SaveAllAndLoad(fp: File, es: seq<Entry>, crc: Checksum) returns (r: Loaded)
    requires es != [] && AllLoadable(es) && Fits(es[..|es| - 1], crc)
    modifies fp
    ensures Shaped(es) && fp.content == Archive(es, crc) && r == Loaded(Latest(es))
  {
    hide Scan, Archive, Loadable, Latest, Fits;
    ArchiveLoads(es, crc);
    EntrySized(es, 0);
    fp.Seek(0);
    var ok := NpzSave(fp, false, es[0], crc, []);
    assert es[..1] == [es[0]];
    for k := 1 to |es|
      invariant Shaped(es[..k]) && fp.content == Archive(es[..k], crc)
    {
      FitsShorter(es[..|es| - 1], k, crc);
      assert es[..|es| - 1][..k] == es[..k] && es[..k] + [es[k]] == es[..k + 1];
      EntrySized(es, k);
      fp.Seek(0);
      ok := NpzSave(fp, true, es[k], crc, es[..k]);
    }
    assert es[..|es|] == es;
    fp.Seek(0);
    r := NpzLoad(fp);
  }

  lemma EntrySized(es: seq<Entry>, k: nat)
    requires AllLoadable(es) && k < |es|
    ensures Sized(es[k])
  {
  }
}
