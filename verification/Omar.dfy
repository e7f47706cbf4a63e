/** The OMAR archive: the writer, and the two readers that must undo it. */
module Omar {
  import opened Arithmetic

  type Bytes = seq<Byte>

  /** What is archived; the length of a directory is whatever the host reports. */
  datatype Entry =
    | File(name: Bytes, mode: nat, data: Bytes)
    | Dir(name: Bytes, mode: nat, size: nat)

  function Length(e: Entry): nat {
    if e.File? then |e.data| else e.size
  }

  /** Names are C strings that fit the buffers; lengths and modes have 32 bits. */
  predicate EntryOk(e: Entry) {
    |e.name| <= 255 && 0 !in e.name && e.mode < 0x1_0000_0000 && Length(e) < 0x1_0000_0000
  }

  predicate EmptyFile(e: Entry) {
    e.File? && e.data == []
  }

  // ---------- layout ----------

  const MAGIC: Bytes := [79, 77, 65, 82]
  const END_MAGIC: Bytes := [82, 65, 77, 79]
  const END_NAME: Bytes := [69, 79, 70]

  function Le32(v: nat): Bytes {
    var v1 := v / 256;
    var v2 := v1 / 256;
    [v % 256, v1 % 256, v2 % 256, v2 / 256 % 256]
  }

  function FromLe32(b: Bytes): nat
    requires |b| == 4
  {
    var b0: int, b1: int, b2: int, b3: int := b[0], b[1], b[2], b[3];
    b0 + 256 * (b1 + 256 * (b2 + 256 * b3))
  }

  lemma Le32Inverse(v: nat)
    requires v < 0x1_0000_0000
    ensures FromLe32(Le32(v)) == v
  {
    var v1 := v / 256;
    var v2 := v1 / 256;
    assert v2 / 256 < 256;
  }

  /** The packed header of 15 bytes. */
  function Header(magic: Bytes, kind: Byte, namelen: Byte, len: nat, mode: nat): (h: Bytes)
    requires |magic| == 4
    ensures |h| == 15
  {
    magic + [kind, namelen] + Le32(len) + [2] + Le32(mode)
  }

  function Zeros(n: nat): (z: Bytes)
    ensures |z| == n
  {
    seq(n, _ => 0)
  }

  /** The bytes `file_push` writes for an entry. */
  function Encoded(e: Entry): Bytes
    requires EntryOk(e)
  {
    var start := Header(MAGIC, if e.Dir? then 1 else 0, |e.name|, Length(e), e.mode) + e.name;
    if e.Dir? then start + Zeros(512 - |start| % 512)
    else if e.data == [] then start
    else
      var whole := start + e.data;
      if |whole| % 512 == 0 then whole else whole + Zeros(512 - |whole| % 512)
  }

  /** The end marker; its mode is whatever was on the stack. */
  function End(mode: nat): Bytes {
    Header(END_MAGIC, 0, 3, 0, mode) + END_NAME
  }

  function Concat(parts: seq<Bytes>): Bytes {
    if parts == [] then [] else parts[0] + Concat(parts[1..])
  }

  function Parts(entries: seq<Entry>): (parts: seq<Bytes>)
    requires forall e :: e in entries ==> EntryOk(e)
    ensures |parts| == |entries| && forall i :: 0 <= i < |entries| ==> parts[i] == Encoded(entries[i])
  {
    seq(|entries|, i requires 0 <= i < |entries| => Encoded(entries[i]))
  }

  /** The entries one after the other. */
  function Body(entries: seq<Entry>): Bytes
    requires forall e :: e in entries ==> EntryOk(e)
  {
    Concat(Parts(entries))
  }

  function Image(entries: seq<Entry>, mode: nat): Bytes
    requires forall e :: e in entries ==> EntryOk(e)
  {
    Concat(Parts(entries) + [End(mode)])
  }

  /** How far a reader goes from one header to the next. */
  function Skip(e: Entry): nat {
    if e.Dir? then 512 else AlignUp(15 + |e.name| + |e.data|, 512)
  }

  lemma Padding(n: nat)
    ensures AlignUp(n, 512) == if n % 512 == 0 then n else n + 512 - n % 512
  {
    AlignUpFacts(n, 512);
  }

  /** The number of bytes written for an entry. */
  lemma EncodedLength(e: Entry)
    requires EntryOk(e)
    ensures var n := 15 + |e.name|;
      |Encoded(e)| == if e.Dir? then n + (512 - n % 512)
                      else if e.data == [] then n
                      else if (n + |e.data|) % 512 == 0 then n + |e.data|
                      else n + |e.data| + (512 - (n + |e.data|) % 512)
  {
  }

  lemma DirLength(n: nat)
    requires n < 512
    ensures n + (512 - n % 512) == 512
  {
  }

  lemma EmptyLength(n: nat)
    requires 0 < n < 512
    ensures AlignUp(n, 512) == 512
  {
    Padding(n);
  }

  /** An entry fills as many bytes as readers skip exactly if it is not an empty regular file. */
  lemma SkipMatches(e: Entry)
    requires EntryOk(e)
    ensures |Encoded(e)| <= Skip(e)
    ensures |Encoded(e)| == Skip(e) <==> !EmptyFile(e)
  {
    EncodedLength(e);
    if e.Dir? {
      DirLength(15 + |e.name|);
    } else if e.data == [] {
      EmptyLength(15 + |e.name|);
    } else {
      Padding(15 + |e.name| + |e.data|);
    }
  }

  // ---------- where headers are ----------

  lemma {:induction false} ConcatSplit(parts: seq<Bytes>, i: nat)
    requires i <= |parts|
    ensures Concat(parts) == Concat(parts[..i]) + Concat(parts[i..])
  {
    if i == 0 {
      assert parts[0..] == parts && parts[..0] == [];
    } else {
      ConcatSplit(parts[1..], i - 1);
      assert parts[1..][..i - 1] == parts[..i][1..] && parts[1..][i - 1..] == parts[i..];
      assert parts[..i][0] == parts[0];
    }
  }

  lemma ConcatOne(x: Bytes)
    ensures Concat([x]) == x
  {
    var one: seq<Bytes> := [x];
    assert one[1..] == [];
    assert x + [] == x;
  }

  lemma ConcatNext(parts: seq<Bytes>, i: nat)
    requires i < |parts|
    ensures Concat(parts[..i + 1]) == Concat(parts[..i]) + parts[i]
  {
    var front := parts[..i + 1];
    ConcatSplit(front, i);
    ConcatOne(parts[i]);
    assert front[..i] == parts[..i] && front[i..] == [parts[i]];
  }

  /** One part between those before it and those after it. */
  lemma ConcatAt(parts: seq<Bytes>, i: nat)
    requires i < |parts|
    ensures Concat(parts) == Concat(parts[..i]) + (parts[i] + Concat(parts[i + 1..]))
    ensures Concat(parts[..i + 1]) == Concat(parts[..i]) + parts[i]
  {
    ConcatNext(parts, i);
    ConcatSplit(parts, i);
    assert parts[i..][0] == parts[i] && parts[i..][1..] == parts[i + 1..];
  }

  /** A part is where those before it end. */
  lemma PartAt(parts: seq<Bytes>, i: nat)
    requires i < |parts|
    ensures var p := |Concat(parts[..i])|;
      && p + |parts[i]| == |Concat(parts[..i + 1])| <= |Concat(parts)| && Concat(parts)[p..p + |parts[i]|] == parts[i]
  {
    ConcatAt(parts, i);
    Middle(Concat(parts), Concat(parts[..i]), parts[i], Concat(parts[i + 1..]));
  }

  lemma Middle<T>(s: seq<T>, a: seq<T>, b: seq<T>, c: seq<T>)
    requires s == a + (b + c)
    ensures |a| + |b| <= |s| && s[|a|..|a| + |b|] == b
  {
  }

  lemma Inside<T>(s: seq<T>, p: nat, k: nat, i: nat, j: nat)
    requires p + k <= |s| && i <= j <= k
    ensures s[p..p + k][i..j] == s[p + i..p + j]
  {
    var l, r := s[p..p + k][i..j], s[p + i..p + j];
    forall x | 0 <= x < j - i ensures l[x] == r[x] {
      assert s[p..p + k][i + x] == s[p + (i + x)];
    }
  }

  lemma PartsPrefix(entries: seq<Entry>, i: nat, last: Bytes)
    requires i <= |entries| && forall e :: e in entries ==> EntryOk(e)
    ensures Parts(entries[..i]) == (Parts(entries) + [last])[..i]
  {
  }

  /** The bytes of one entry more. */
  lemma BodyNext(entries: seq<Entry>, i: nat)
    requires i < |entries| && forall e :: e in entries ==> EntryOk(e)
    ensures Body(entries[..i + 1]) == Body(entries[..i]) + Encoded(entries[i])
  {
    PartsPrefix(entries, i, []);
    PartsPrefix(entries, i + 1, []);
    ConcatAt(Parts(entries) + [[]], i);
  }

  lemma ImageIs(entries: seq<Entry>, mode: nat)
    requires forall e :: e in entries ==> EntryOk(e)
    ensures Image(entries, mode) == Body(entries) + End(mode)
  {
    var parts := Parts(entries) + [End(mode)];
    ConcatAt(parts, |entries|);
    assert parts[..|entries|] == Parts(entries) && parts[|entries| + 1..] == [];
  }

  /** The image has the `i`-th entry right after the entries before it. */
  lemma EntryAt(entries: seq<Entry>, i: nat, mode: nat)
    requires i < |entries| && forall e :: e in entries ==> EntryOk(e)
    ensures var image, p, e := Image(entries, mode), |Body(entries[..i])|, entries[i];
      && p + |Encoded(e)| == |Body(entries[..i + 1])| <= |image|
      && image[p..p + |Encoded(e)|] == Encoded(e)
  {
    PartsPrefix(entries, i, End(mode));
    PartsPrefix(entries, i + 1, End(mode));
    PartAt(Parts(entries) + [End(mode)], i);
  }

  lemma EndAt(entries: seq<Entry>, mode: nat)
    requires forall e :: e in entries ==> EntryOk(e)
    ensures var image, p := Image(entries, mode), |Body(entries)|; |image| == p + 18 && image[p..] == End(mode)
  {
    ImageIs(entries, mode);
  }

  /** The fields of a header found in an image. */
  lemma FieldsRead(image: Bytes, p: nat, magic: Bytes, kind: Byte, namelen: Byte, len: nat, mode: nat)
    requires |magic| == 4 && p + 15 <= |image| && image[p..p + 15] == Header(magic, kind, namelen, len, mode)
    requires len < 0x1_0000_0000 && mode < 0x1_0000_0000
    ensures image[p..p + 4] == magic && image[p + 4] == kind && image[p + 5] == namelen
    ensures FromLe32(image[p + 6..p + 10]) == len && FromLe32(image[p + 11..p + 15]) == mode
  {
    var h := image[p..p + 15];
    Le32Inverse(len);
    Le32Inverse(mode);
    HeaderParts(magic, kind, namelen, len, mode);
    Inside(image, p, 15, 0, 4);
    Inside(image, p, 15, 6, 10);
    Inside(image, p, 15, 11, 15);
    assert image[p + 4] == h[4] && image[p + 5] == h[5];
  }

  lemma HeaderParts(magic: Bytes, kind: Byte, namelen: Byte, len: nat, mode: nat)
    requires |magic| == 4
    ensures var h := Header(magic, kind, namelen, len, mode);
      && h[0..4] == magic && h[4] == kind && h[5] == namelen && h[6..10] == Le32(len) && h[11..15] == Le32(mode)
  {
  }

  /** What a reader sees of an entry at `p`. */
  ghost predicate Seen(image: Bytes, p: nat, e: Entry) {
    && p + 15 + |e.name| <= |image|
    && image[p..p + 4] == MAGIC && image[p + 4] == (if e.Dir? then 1 else 0) && image[p + 5] == |e.name|
    && FromLe32(image[p + 6..p + 10]) == Length(e) && FromLe32(image[p + 11..p + 15]) == e.mode
    && image[p + 15..p + 15 + |e.name|] == e.name
    && (e.File? ==>
          && p + 15 + |e.name| + |e.data| <= |image|
          && image[p + 15 + |e.name|..p + 15 + |e.name| + |e.data|] == e.data)
  }

  lemma EncodedParts(e: Entry)
    requires EntryOk(e)
    ensures var enc, n := Encoded(e), |e.name|;
      && 15 + n <= |enc|
      && enc[0..15] == Header(MAGIC, if e.Dir? then 1 else 0, n, Length(e), e.mode) && enc[15..15 + n] == e.name
      && (e.File? ==> 15 + n + |e.data| <= |enc| && enc[15 + n..15 + n + |e.data|] == e.data)
  {
  }

  lemma PartsSeen(image: Bytes, p: nat, e: Entry, enc: Bytes)
    requires EntryOk(e) && p + |enc| <= |image| && image[p..p + |enc|] == enc
    requires var n := |e.name|;
      && 15 + n <= |enc|
      && enc[0..15] == Header(MAGIC, if e.Dir? then 1 else 0, n, Length(e), e.mode) && enc[15..15 + n] == e.name
      && (e.File? ==> 15 + n + |e.data| <= |enc| && enc[15 + n..15 + n + |e.data|] == e.data)
    ensures Seen(image, p, e)
  {
    var k, n := |enc|, |e.name|;
    Inside(image, p, k, 0, 15);
    Inside(image, p, k, 15, 15 + n);
    if e.File? { Inside(image, p, k, 15 + n, 15 + n + |e.data|); }
    FieldsRead(image, p, MAGIC, if e.Dir? then 1 else 0, n, Length(e), e.mode);
  }

  lemma EncodedSeen(image: Bytes, p: nat, e: Entry)
    requires EntryOk(e) && p + |Encoded(e)| <= |image| && image[p..p + |Encoded(e)|] == Encoded(e)
    ensures Seen(image, p, e)
  {
    EncodedParts(e);
    PartsSeen(image, p, e, Encoded(e));
  }

  // ---------- the writer ----------

  datatype Status = Done | Failed

  class Writer {
    var out: Bytes

    constructor ()
      ensures out == []
    {
      out := [];
    }

    /** `file_push` of a file or directory; an empty regular file fails after its header and name are written. */
    method FilePush(e: Entry) returns (status: Status)
      requires EntryOk(e)
      modifies this
      ensures out == old(out) + Encoded(e)
      ensures status.Failed? <==> EmptyFile(e)
    {
      ghost var start := Header(MAGIC, if e.Dir? then 1 else 0, |e.name|, Length(e), e.mode) + e.name;
      var hdr := Header(MAGIC, if e.Dir? then 1 else 0, |e.name|, Length(e), e.mode);
      out := out + hdr;
      out := out + e.name;
      assert out == old(out) + start;
      if e.Dir? {
        var rem := (15 + |e.name|) % 512;
        out := out + Zeros(512 - rem);
        assert out == old(out) + (start + Zeros(512 - rem));
        return Done;
      }
      if e.data == [] {
        return Failed;
      }
      out := out + e.data;
      var rem := (15 + |e.name| + |e.data|) % 512;
      assert out == old(out) + (start + e.data);
      if rem != 0 {
        out := out + Zeros(512 - rem);
        assert out == old(out) + (start + e.data + Zeros(512 - rem));
      }
      return Done;
    }

    /** `file_push` of the end marker, with whatever mode was on the stack. */
    method PushEnd(mode: nat)
      modifies this
      ensures out == old(out) + End(mode)
    {
      out := out + Header(END_MAGIC, 0, 3, 0, mode);
      out := out + END_NAME;
    }

    /** All entries in order, then the end marker; failures of single entries do not stop it. */
    method Create(entries: seq<Entry>, mode: nat)
      requires out == [] && forall e :: e in entries ==> EntryOk(e)
      modifies this
      ensures out == Image(entries, mode)
    {
      assert entries[..0] == [];
      for i := 0 to |entries|
        invariant out == Body(entries[..i])
      {
        var status := FilePush(entries[i]);
        BodyNext(entries, i);
      }
      assert entries[..|entries|] == entries;
      PushEnd(mode);
      ImageIs(entries, mode);
    }
  }

  // ---------- the readers ----------

  /** `Outside` stands for a read beyond the image, which the source does not prevent. */
  datatype Found = Found(mode: nat, size: nat, data: nat) | NotFound | Invalid | Outside

  predicate AtEnd(image: Bytes, p: nat)
    requires p + 5 <= |image|
  {
    image[p..p + 5] == END_MAGIC + [0]
  }

  lemma EndSeen(entries: seq<Entry>, mode: nat)
    requires forall e :: e in entries ==> EntryOk(e)
    ensures var image, p := Image(entries, mode), |Body(entries)|; p + 18 == |image| && AtEnd(image, p)
  {
    EndAt(entries, mode);
    var image, p := Image(entries, mode), |Body(entries)|;
    assert image[p..p + 5] == image[p..][..5];
    assert End(mode)[..5] == END_MAGIC + [0];
  }

  lemma NotAtEnd(image: Bytes, p: nat, e: Entry)
    requires Seen(image, p, e)
    ensures !AtEnd(image, p)
  {
    assert image[p..p + 4][0] == image[p];
    assert image[p..p + 5][0] == image[p];
    assert (END_MAGIC + [0])[0] == 82;
  }

  lemma NextHeader(entries: seq<Entry>, i: nat, mode: nat)
    requires i < |entries| && forall e :: e in entries ==> EntryOk(e) && !EmptyFile(e)
    ensures var image, p := Image(entries, mode), |Body(entries[..i])|;
      Seen(image, p, entries[i]) && !AtEnd(image, p) && |Body(entries[..i + 1])| == p + Skip(entries[i])
  {
    var image, p := Image(entries, mode), |Body(entries[..i])|;
    EntryAt(entries, i, mode);
    EncodedSeen(image, p, entries[i]);
    NotAtEnd(image, p, entries[i]);
    SkipMatches(entries[i]);
  }

  ghost predicate HeaderAt(image: Bytes, entries: seq<Entry>, offs: seq<nat>, i: int) {
    && 0 <= i < |entries| && |offs| == |entries| + 1
    && Seen(image, offs[i], entries[i]) && !AtEnd(image, offs[i]) && offs[i + 1] == offs[i] + Skip(entries[i])
  }

  /** The image has the entries at these offsets, each where the one before leads, and then the end marker. */
  ghost predicate Laid(image: Bytes, entries: seq<Entry>, offs: seq<nat>) {
    && |offs| == |entries| + 1 && offs[0] == 0
    && (forall i {:trigger HeaderAt(image, entries, offs, i)} :: 0 <= i < |entries| ==>
      HeaderAt(image, entries, offs, i))
    && offs[|entries|] + 5 <= |image| && AtEnd(image, offs[|entries|])
  }

  /** The offsets at which the writer places headers. */
  ghost function Placed(entries: seq<Entry>): (offs: seq<nat>)
    requires forall e :: e in entries ==> EntryOk(e)
    ensures |offs| == |entries| + 1
    ensures forall i :: 0 <= i <= |entries| ==> offs[i] == |Body(entries[..i])|
  {
    seq(|entries| + 1, i requires 0 <= i <= |entries| => |Body(entries[..i])|)
  }

  /** An image the writer made, without empty regular files, is laid out so. */
  lemma ImageLaid(entries: seq<Entry>, mode: nat)
    requires forall e :: e in entries ==> EntryOk(e) && !EmptyFile(e)
    ensures Laid(Image(entries, mode), entries, Placed(entries))
  {
    var image, offs := Image(entries, mode), Placed(entries);
    assert entries[..0] == [] && entries[..|entries|] == entries;
    EndSeen(entries, mode);
    forall i {:trigger HeaderAt(image, entries, offs, i)} | 0 <= i < |entries|
      ensures HeaderAt(image, entries, offs, i)
    {
      NextHeader(entries, i, mode);
    }
  }

  datatype Fields = Fields(kind: Byte, name: Bytes, len: nat, mode: nat, data: nat)

  /** What a reader finds at an offset. */
  datatype Place = Marker | BadMagic | Beyond | At(h: Fields)

  /** The bytes up to the first zero byte. */
  function CString(b: Bytes): Bytes {
    if b == [] || b[0] == 0 then [] else [b[0]] + CString(b[1..])
  }

  lemma {:induction false} CStringWhole(b: Bytes)
    requires 0 !in b
    ensures CString(b) == b
  {
    if b != [] { CStringWhole(b[1..]); }
  }

  /** The image ends before it is decided whether these bytes are at `p`; comparisons stop at the first difference. */
  predicate CutOff(image: Bytes, p: nat, bytes: Bytes) {
    |image| < p + |bytes| && (|image| < p || image[p..] == bytes[..|image| - p])
  }

  /** A header must be in the image as a whole, its name included; a marker or a bad magic need only be decided. */
  function PlaceAt(image: Bytes, p: nat): Place {
    if CutOff(image, p, END_MAGIC + [0]) || CutOff(image, p, MAGIC) then Beyond
    else if p + 5 <= |image| && AtEnd(image, p) then Marker
    else if p + 4 > |image| || image[p..p + 4] != MAGIC then BadMagic
    else if p + 15 > |image| || p + 15 + image[p + 5] as int > |image| then Beyond
    else At(Fields(image[p + 4], CString(image[p + 15..p + 15 + image[p + 5] as int]), FromLe32(image[p + 6..p + 10]),
              FromLe32(image[p + 11..p + 15]), p + 15 + image[p + 5] as int))
  }

  /** The offset to the next header. */
  function Offset(h: Fields, p: nat): nat
    requires h.data >= p + 15
  {
    if h.kind == 1 then 512 else AlignUp(h.data - p + h.len, 512)
  }

  lemma PlaceSeen(image: Bytes, p: nat, e: Entry)
    requires Seen(image, p, e) && !AtEnd(image, p) && EntryOk(e)
    ensures PlaceAt(image, p) == At(Fields(if e.Dir? then 1 else 0, e.name, Length(e), e.mode, p + 15 + |e.name|))
  {
    CStringWhole(e.name);
  }

  lemma OffsetSeen(e: Entry, p: nat)
    ensures Offset(Fields(if e.Dir? then 1 else 0, e.name, Length(e), e.mode, p + 15 + |e.name|), p) == Skip(e)
  {
  }

  /** What is at each offset of an image. */
  function PlacesOf(image: Bytes): nat -> Place {
    (p: nat) => PlaceAt(image, p)
  }

  /** The walk both readers make: the headers from offset `p` on, and what ends it. `n` is the length of the image. */
  function Headers(at: nat -> Place, n: nat, p: nat): (seq<Fields>, Place)
    decreases if p <= n then n - p else 0
  {
    match at(p)
    case At(h) =>
      if p + 15 > n || h.data < p + 15 then ([], Beyond)
      else
        var (hs, end) := Headers(at, n, p + Offset(h, p));
        ([h] + hs, end)
    case _ => ([], at(p))
  }

  /** The walk follows headers that lead from one to the next. */
  lemma {:induction false} HeadersAre(at: nat -> Place, n: nat, hs: seq<Fields>, offs: seq<nat>, i: nat)
    requires |offs| == |hs| + 1 && i <= |hs| && at(offs[|hs|]) == Marker
    requires forall k :: 0 <= k < |hs| ==>
      at(offs[k]) == At(hs[k]) && offs[k] + 15 <= n && hs[k].data >= offs[k] + 15
        && offs[k + 1] == offs[k] + Offset(hs[k], offs[k])
    ensures Headers(at, n, offs[i]) == (hs[i..], Marker)
    decreases |hs| - i
  {
    if i < |hs| {
      HeadersAre(at, n, hs, offs, i + 1);
      assert hs[i..] == [hs[i]] + hs[i + 1..];
    }
  }

  function FieldsOf(e: Entry, p: nat): Fields {
    Fields(if e.Dir? then 1 else 0, e.name, Length(e), e.mode, p + 15 + |e.name|)
  }

  function AllFields(entries: seq<Entry>, offs: seq<nat>): (hs: seq<Fields>)
    requires |offs| == |entries| + 1
    ensures |hs| == |entries| && forall k :: 0 <= k < |hs| ==> hs[k] == FieldsOf(entries[k], offs[k])
  {
    seq(|entries|, k requires 0 <= k < |entries| => FieldsOf(entries[k], offs[k]))
  }

  lemma PlaceOfEntry(image: Bytes, entries: seq<Entry>, offs: seq<nat>, k: nat)
    requires k < |entries| && EntryOk(entries[k]) && |offs| == |entries| + 1 && HeaderAt(image, entries, offs, k)
    ensures var h := FieldsOf(entries[k], offs[k]);
      && PlacesOf(image)(offs[k]) == At(h) && offs[k] + 15 <= |image| && offs[k + 1] == offs[k] + Offset(h, offs[k])
  {
    PlaceSeen(image, offs[k], entries[k]);
    OffsetSeen(entries[k], offs[k]);
  }

  /**
   * On an image laid out as the writer does the walk meets exactly the headers of the entries, and
   * ends at the end marker.
   */
  lemma WalkMeetsAll(image: Bytes, entries: seq<Entry>, offs: seq<nat>)
    requires Laid(image, entries, offs) && |image| >= offs[|entries|] + 15 && (forall e :: e in entries ==> EntryOk(e))
    ensures Headers(PlacesOf(image), |image|, 0) == (AllFields(entries, offs), Marker)
  {
    var at, hs := PlacesOf(image), AllFields(entries, offs);
    forall k | 0 <= k < |hs|
      ensures at(offs[k]) == At(hs[k]) && offs[k] + 15 <= |image| && hs[k].data >= offs[k] + 15
      ensures offs[k + 1] == offs[k] + Offset(hs[k], offs[k])
    {
      assert HeaderAt(image, entries, offs, k);
      PlaceOfEntry(image, entries, offs, k);
    }
    HeadersAre(at, |image|, hs, offs, 0);
    assert hs[0..] == hs;
  }

  // ---------- lookup ----------

  /** The first header from `i` on with that name, or the number of headers. */
  function FirstNamed(hs: seq<Fields>, i: nat, path: Bytes): (j: nat)
    requires i <= |hs|
    ensures i <= j <= |hs| && (j < |hs| ==> hs[j].name == path)
    ensures forall k :: i <= k < j ==> hs[k].name != path
    decreases |hs| - i
  {
    if i == |hs| || hs[i].name == path then i else FirstNamed(hs, i + 1, path)
  }

  /** The first header of the walk with that name, or what its end means. */
  function Pick(walk: (seq<Fields>, Place), path: Bytes): Found {
    var j := FirstNamed(walk.0, 0, path);
    if j < |walk.0| then Found.Found(walk.0[j].mode, walk.0[j].len, walk.0[j].data)
    else if walk.1 == Marker then NotFound
    else if walk.1 == BadMagic then Invalid
    else Outside
  }

  lemma FirstNamedIs(hs: seq<Fields>, path: Bytes, j: nat)
    requires j <= |hs| && (j < |hs| ==> hs[j].name == path) && forall k :: 0 <= k < j ==> hs[k].name != path
    ensures FirstNamed(hs, 0, path) == j
  {
  }

  /** The rest of the walk from offset `p` on. */
  ghost predicate Rest(at: nat -> Place, n: nat, walk: (seq<Fields>, Place), k: nat, p: nat) {
    k <= |walk.0| && Headers(at, n, p) == (walk.0[k..], walk.1)
  }

  lemma RestNext(at: nat -> Place, n: nat, walk: (seq<Fields>, Place), k: nat, p: nat)
    requires Rest(at, n, walk, k, p)
    ensures at(p).At? && p + 15 <= n && at(p).h.data >= p + 15 ==>
      k < |walk.0| && walk.0[k] == at(p).h && Rest(at, n, walk, k + 1, p + Offset(at(p).h, p))
    ensures !at(p).At? ==> k == |walk.0| && walk.1 == at(p)
  {
    if at(p).At? && p + 15 <= n && at(p).h.data >= p + 15 {
      var hs := Headers(at, n, p + Offset(at(p).h, p)).0;
      assert walk.0[k..][0] == at(p).h && walk.0[k..][1..] == hs == walk.0[k + 1..];
    }
  }

  ghost predicate Agree(at: nat -> Place, image: Bytes, p: nat) {
    at(p) == PlaceAt(image, p)
  }

  /** `at` says what is at each offset of the image. */
  ghost predicate Reads(at: nat -> Place, image: Bytes) {
    forall p: nat {:trigger Agree(at, image, p)} :: Agree(at, image, p)
  }

  lemma PlacesRead(image: Bytes)
    ensures Reads(PlacesOf(image), image)
  {
    forall p: nat {:trigger Agree(PlacesOf(image), image, p)} ensures Agree(PlacesOf(image), image, p) { }
  }

  method ReadPlace(image: Bytes, p: nat, ghost at: nat -> Place) returns (r: Place)
    requires Reads(at, image)
    ensures r == at(p)
    ensures r.At? ==> p + 15 <= |image| && r.h.data >= p + 15
  {
    assert Agree(at, image, p);
    r := PlaceAt(image, p);
  }

  /** `initramfs_get_file`, on any image. */
  method GetFile(image: Bytes, path: Bytes) returns (r: Found)
    requires 0 !in path
    ensures r == Pick(Headers(PlacesOf(image), |image|, 0), path)
  {
    PlacesRead(image);
    r := Find(image, path, PlacesOf(image), Headers(PlacesOf(image), |image|, 0));
  }

  method Find(image: Bytes, path: Bytes, ghost at: nat -> Place, ghost walk: (seq<Fields>, Place)) returns (r: Found)
    requires Reads(at, image) && Headers(at, |image|, 0) == walk
    ensures r == Pick(walk, path)
  {
    var p: nat := 0;
    ghost var k: nat := 0;
    assert walk.0[0..] == walk.0;
    while true
      invariant Rest(at, |image|, walk, k, p) && forall i :: 0 <= i < k ==> walk.0[i].name != path
      decreases |walk.0| - k
    {
      RestNext(at, |image|, walk, k, p);
      var here := ReadPlace(image, p, at);
      if !here.At? {
        FirstNamedIs(walk.0, path, k);
        return if here == Marker then NotFound else if here == BadMagic then Invalid else Outside;
      }
      if here.h.name == path {
        FirstNamedIs(walk.0, path, k);
        return Found.Found(here.h.mode, here.h.len, here.h.data);
      }
      p := p + Offset(here.h, p);
      k := k + 1;
    }
  }

  // ---------- extraction ----------

  /** What the extractor creates. */
  datatype Unpacked = Folder(name: Bytes, mode: nat) | Contents(name: Bytes, mode: nat, data: Bytes)

  function Unpack(e: Entry): Unpacked {
    if e.Dir? then Folder(e.name, e.mode) else Contents(e.name, e.mode, e.data)
  }

  /** The data of a file is within the image. */
  predicate Inner(image: Bytes, h: Fields) {
    h.kind == 1 || h.data + h.len <= |image|
  }

  function Made(image: Bytes, h: Fields): Unpacked
    requires Inner(image, h)
  {
    if h.kind == 1 then Folder(h.name, h.mode) else Contents(h.name, h.mode, image[h.data..h.data + h.len])
  }

  /** What the extractor has made of the headers of a walk, up to one whose data is not in the image. */
  ghost predicate Extracted(image: Bytes, walk: (seq<Fields>, Place), made: seq<Unpacked>, end: Place) {
    && |made| <= |walk.0|
    && (forall i :: 0 <= i < |made| ==> Inner(image, walk.0[i]) && made[i] == Made(image, walk.0[i]))
    && (|made| < |walk.0| ==> !Inner(image, walk.0[|made|]) && end == Beyond)
    && (|made| == |walk.0| ==> end == walk.1)
  }

  /** `archive_extract`, on any image. */
  method Extract(image: Bytes) returns (made: seq<Unpacked>, end: Place)
    ensures Extracted(image, Headers(PlacesOf(image), |image|, 0), made, end)
  {
    PlacesRead(image);
    made, end := Unpacking(image, PlacesOf(image), Headers(PlacesOf(image), |image|, 0));
  }

  method Unpacking(image: Bytes, ghost at: nat -> Place, ghost walk: (seq<Fields>, Place))
    returns (made: seq<Unpacked>, end: Place)
    requires Reads(at, image) && Headers(at, |image|, 0) == walk
    ensures Extracted(image, walk, made, end)
  {
    var p: nat := 0;
    made := [];
    assert walk.0[0..] == walk.0;
    while true
      invariant Rest(at, |image|, walk, |made|, p)
      invariant forall i :: 0 <= i < |made| ==> Inner(image, walk.0[i]) && made[i] == Made(image, walk.0[i])
      decreases |walk.0| - |made|
    {
      RestNext(at, |image|, walk, |made|, p);
      var here := ReadPlace(image, p, at);
      if !here.At? {
        return made, here;
      }
      if !Inner(image, here.h) {
        return made, Beyond;
      }
      made := made + [Made(image, here.h)];
      p := p + Offset(here.h, p);
    }
  }

  /** `initramfs_read`: the part of the file from `offset` on that fits the request. */
  method Read(image: Bytes, node: Found, offset: nat, len: nat) returns (dest: Bytes)
    requires node.Found? && node.data + node.size <= |image|
    ensures var file := image[node.data..node.data + node.size];
      dest == if offset >= node.size then [] else if offset + len >= node.size then file[offset..]
        else file[offset..offset + len]
  {
    var n := if len > node.size then node.size else len;
    ghost var file := image[node.data..node.data + node.size];
    dest := [];
    var i := 0;
    while i < n
      invariant 0 <= i <= n && |dest| == i && (i > 0 ==> offset + i <= node.size)
      invariant i > 0 ==> dest == file[offset..offset + i]
    {
      if offset + i >= node.size {
        break;
      }
      assert file[offset + i] == image[node.data + (offset + i)];
      dest := dest + [image[node.data + (offset + i)]];
      i := i + 1;
    }
  }

  /** A walk along a written image: one header for each entry, with its data, and then the end marker. */
  ghost predicate Shows(image: Bytes, walk: (seq<Fields>, Place), entries: seq<Entry>) {
    && walk.1 == Marker && |walk.0| == |entries|
    && forall k {:trigger Shown(image, walk.0, entries, k)} :: 0 <= k < |entries| ==> Shown(image, walk.0, entries, k)
  }

  ghost predicate Shown(image: Bytes, hs: seq<Fields>, entries: seq<Entry>, k: int) {
    && 0 <= k < |hs| == |entries|
    && hs[k].name == entries[k].name && hs[k].mode == entries[k].mode && hs[k].len == Length(entries[k])
    && Inner(image, hs[k]) && Made(image, hs[k]) == Unpack(entries[k])
  }

  lemma Readable(entries: seq<Entry>, mode: nat)
    requires forall e :: e in entries ==> EntryOk(e) && !EmptyFile(e)
    ensures var image := Image(entries, mode); Shows(image, Headers(PlacesOf(image), |image|, 0), entries)
  {
    var image, offs := Image(entries, mode), Placed(entries);
    ImageLaid(entries, mode);
    EndSeen(entries, mode);
    assert entries[..|entries|] == entries;
    WalkMeetsAll(image, entries, offs);
    var hs := AllFields(entries, offs);
    forall k {:trigger Shown(image, hs, entries, k)} | 0 <= k < |entries| ensures Shown(image, hs, entries, k) {
      assert HeaderAt(image, entries, offs, k);
      SeenMade(image, offs[k], entries[k]);
    }
  }

  lemma SeenMade(image: Bytes, p: nat, e: Entry)
    requires Seen(image, p, e)
    ensures Inner(image, FieldsOf(e, p)) && Made(image, FieldsOf(e, p)) == Unpack(e)
  {
  }

  /** A lookup finds exactly the names archived, with their mode, length and data. */
  lemma Finds(image: Bytes, walk: (seq<Fields>, Place), entries: seq<Entry>, path: Bytes)
    requires Shows(image, walk, entries)
    requires forall i, j :: 0 <= i < j < |entries| ==> entries[i].name != entries[j].name
    ensures var r := Pick(walk, path);
      && (r.NotFound? <==> forall k :: 0 <= k < |entries| ==> entries[k].name != path)
      && (r.Found? <==> exists k :: 0 <= k < |entries| && entries[k].name == path)
      && (forall k :: 0 <= k < |entries| && entries[k].name == path ==>
            && r.Found? && r.mode == entries[k].mode && r.size == Length(entries[k])
            && (entries[k].File? ==> r.data + r.size <= |image| && image[r.data..r.data + r.size] == entries[k].data))
  {
    var j := FirstNamed(walk.0, 0, path);
    if j < |entries| { assert Shown(image, walk.0, entries, j); }
    forall k | 0 <= k < j ensures entries[k].name != path { assert Shown(image, walk.0, entries, k); }
  }

  lemma ExtractsAll(image: Bytes, walk: (seq<Fields>, Place), entries: seq<Entry>, made: seq<Unpacked>, end: Place)
    requires Shows(image, walk, entries) && Extracted(image, walk, made, end)
    ensures end == Marker && |made| == |entries| && forall k :: 0 <= k < |entries| ==> made[k] == Unpack(entries[k])
  {
    assert |made| < |walk.0| ==> Shown(image, walk.0, entries, |made|);
    forall k | 0 <= k < |entries| ensures made[k] == Unpack(entries[k]) { assert Shown(image, walk.0, entries, k); }
  }

  /** Written and read back: lookups and extraction see exactly what was archived. */
  method RoundTrip(entries: seq<Entry>, mode: nat, path: Bytes) returns (image: Bytes, r: Found, made: seq<Unpacked>)
    requires 0 !in path && forall e :: e in entries ==> EntryOk(e) && !EmptyFile(e)
    requires forall i, j :: 0 <= i < j < |entries| ==> entries[i].name != entries[j].name
    ensures r.NotFound? <==> forall k :: 0 <= k < |entries| ==> entries[k].name != path
    ensures r.Found? <==> exists k :: 0 <= k < |entries| && entries[k].name == path
    ensures forall k :: 0 <= k < |entries| && entries[k].name == path ==>
      && r.mode == entries[k].mode && r.size == Length(entries[k])
      && (entries[k].File? ==> r.data + r.size <= |image| && image[r.data..r.data + r.size] == entries[k].data)
    ensures |made| == |entries| && forall k :: 0 <= k < |entries| ==> made[k] == Unpack(entries[k])
  {
    var w := new Writer();
    w.Create(entries, mode);
    image := w.out;
    Readable(entries, mode);
    r, made := ReadBack(image, entries, path);
  }

  method ReadBack(image: Bytes, ghost entries: seq<Entry>, path: Bytes) returns (r: Found, made: seq<Unpacked>)
    requires 0 !in path && Shows(image, Headers(PlacesOf(image), |image|, 0), entries)
    requires forall i, j :: 0 <= i < j < |entries| ==> entries[i].name != entries[j].name
    ensures r.NotFound? <==> forall k :: 0 <= k < |entries| ==> entries[k].name != path
    ensures r.Found? <==> exists k :: 0 <= k < |entries| && entries[k].name == path
    ensures forall k :: 0 <= k < |entries| && entries[k].name == path ==>
      && r.mode == entries[k].mode && r.size == Length(entries[k])
      && (entries[k].File? ==> r.data + r.size <= |image| && image[r.data..r.data + r.size] == entries[k].data)
    ensures |made| == |entries| && forall k :: 0 <= k < |entries| ==> made[k] == Unpack(entries[k])
  {
    ghost var walk := Headers(PlacesOf(image), |image|, 0);
    r := GetFile(image, path);
    Finds(image, walk, entries, path);
    var end;
    made, end := Extract(image);
    ExtractsAll(image, walk, entries, made, end);
  }

  // ---------- empty regular files ----------

  /** What is at the place of an entry, empty or not. */
  lemma EntryPlace(entries: seq<Entry>, i: nat, mode: nat)
    requires i < |entries| && forall e :: e in entries ==> EntryOk(e)
    ensures var image, p := Image(entries, mode), |Body(entries[..i])|;
      && PlacesOf(image)(p) == At(FieldsOf(entries[i], p)) && p + 15 <= |image|
      && |Body(entries[..i + 1])| == p + |Encoded(entries[i])| <= |image|
  {
    EntryAt(entries, i, mode);
    EncodedPlace(Image(entries, mode), |Body(entries[..i])|, entries[i]);
  }

  lemma EncodedPlace(image: Bytes, p: nat, e: Entry)
    requires EntryOk(e) && p + |Encoded(e)| <= |image| && image[p..p + |Encoded(e)|] == Encoded(e)
    ensures PlacesOf(image)(p) == At(FieldsOf(e, p)) && p + 15 <= |image|
  {
    EncodedSeen(image, p, e);
    NotAtEnd(image, p, e);
    PlaceSeen(image, p, e);
  }

  /** At `offs[k]` is the header `hs[k]`, and it leads to the next offset. */
  ghost predicate Leads(at: nat -> Place, n: nat, hs: seq<Fields>, offs: seq<nat>, k: int) {
    && 0 <= k < |hs| && |offs| == |hs| + 1 && at(offs[k]) == At(hs[k])
    && offs[k] + 15 <= n && hs[k].data >= offs[k] + 15 && offs[k + 1] == offs[k] + Offset(hs[k], offs[k])
  }

  /** Headers that lead from one to the next begin the walk. */
  lemma {:induction false} WalkAlong(at: nat -> Place, n: nat, hs: seq<Fields>, offs: seq<nat>, i: nat)
    requires |offs| == |hs| + 1 && i <= |hs| && offs[0] == 0
    requires forall k {:trigger Leads(at, n, hs, offs, k)} :: 0 <= k < i ==> Leads(at, n, hs, offs, k)
    ensures var walk := Headers(at, n, 0); Rest(at, n, walk, i, offs[i]) && walk.0[..i] == hs[..i]
  {
    var walk := Headers(at, n, 0);
    if i == 0 {
      assert walk.0[0..] == walk.0;
    } else {
      WalkAlong(at, n, hs, offs, i - 1);
      assert Leads(at, n, hs, offs, i - 1);
      RestNext(at, n, walk, i - 1, offs[i - 1]);
      assert walk.0[..i] == walk.0[..i - 1] + [walk.0[i - 1]] && hs[..i] == hs[..i - 1] + [hs[i - 1]];
    }
  }

  lemma LeadsOn(entries: seq<Entry>, mode: nat, k: nat)
    requires k < |entries| && (forall e :: e in entries ==> EntryOk(e)) && !EmptyFile(entries[k])
    ensures var image, offs := Image(entries, mode), Placed(entries);
      Leads(PlacesOf(image), |image|, AllFields(entries, offs), offs, k)
  {
    EntryPlace(entries, k, mode);
    SkipMatches(entries[k]);
    var image := Image(entries, mode);
    LeadsFrom(PlacesOf(image), |image|, entries, Placed(entries), k);
  }

  lemma LeadsFrom(at: nat -> Place, n: nat, entries: seq<Entry>, offs: seq<nat>, k: nat)
    requires k < |entries| && |offs| == |entries| + 1 && at(offs[k]) == At(FieldsOf(entries[k], offs[k]))
    requires offs[k] + 15 <= n && offs[k + 1] == offs[k] + Skip(entries[k])
    ensures Leads(at, n, AllFields(entries, offs), offs, k)
  {
    OffsetSeen(entries[k], offs[k]);
  }

  /** The walk meets what was archived up to the first empty file. */
  lemma RestAlong(entries: seq<Entry>, mode: nat, i: nat)
    requires i <= |entries| && forall e :: e in entries ==> EntryOk(e)
    requires forall k :: 0 <= k < i ==> !EmptyFile(entries[k])
    ensures var image, offs := Image(entries, mode), Placed(entries); var at := PlacesOf(image);
      var walk := Headers(at, |image|, 0);
      Rest(at, |image|, walk, i, offs[i]) && walk.0[..i] == AllFields(entries, offs)[..i]
  {
    var image, offs := Image(entries, mode), Placed(entries);
    var at, hs := PlacesOf(image), AllFields(entries, offs);
    assert entries[..0] == [];
    forall k {:trigger Leads(at, |image|, hs, offs, k)} | 0 <= k < i ensures Leads(at, |image|, hs, offs, k) {
      LeadsOn(entries, mode, k);
    }
    WalkAlong(at, |image|, hs, offs, i);
  }

  lemma EmptySkip(e: Entry)
    requires EntryOk(e) && EmptyFile(e)
    ensures Skip(e) == 512 && |Encoded(e)| == 15 + |e.name| <= 270
  {
    EncodedLength(e);
    Padding(15 + |e.name|);
  }

  lemma StepOn(at: nat -> Place, n: nat, walk: (seq<Fields>, Place), k: nat, p: nat, e: Entry)
    requires Rest(at, n, walk, k, p) && at(p) == At(FieldsOf(e, p)) && p + 15 <= n && EntryOk(e) && EmptyFile(e)
    ensures k < |walk.0| && walk.0[k] == FieldsOf(e, p) && Rest(at, n, walk, k + 1, p + 512)
  {
    EmptySkip(e);
    OffsetSeen(e, p);
    RestNext(at, n, walk, k, p);
  }

  /** From the place of the first empty file the walk goes 512 bytes on. */
  lemma RestAfter(entries: seq<Entry>, mode: nat, i: nat)
    requires i < |entries| && (forall e :: e in entries ==> EntryOk(e)) && EmptyFile(entries[i])
    requires forall k :: 0 <= k < i ==> !EmptyFile(entries[k])
    ensures var image, p := Image(entries, mode), |Body(entries[..i])|; var at := PlacesOf(image);
      var walk := Headers(at, |image|, 0);
      && i < |walk.0| && walk.0[i] == FieldsOf(entries[i], p) && Rest(at, |image|, walk, i + 1, p + 512)
  {
    var image, p := Image(entries, mode), |Body(entries[..i])|;
    var at := PlacesOf(image);
    RestAlong(entries, mode, i);
    EntryPlace(entries, i, mode);
    StepOn(at, |image|, Headers(at, |image|, 0), i, p, entries[i]);
  }

  lemma {:induction false} CStringShort(b: Bytes)
    ensures |CString(b)| <= |b|
  {
    if b != [] { CStringShort(b[1..]); }
  }

  /** A header leaves room for its name before its data. */
  lemma NameFits(image: Bytes, p: nat)
    ensures PlaceAt(image, p).At? ==>
      p + 15 <= |image| && p + 15 + |PlaceAt(image, p).h.name| <= PlaceAt(image, p).h.data
  {
    if PlaceAt(image, p).At? { CStringShort(image[p + 15..p + 15 + image[p + 5] as int]); }
  }

  /** No header 512 bytes on can be that of the next entry: its data would have to begin before its own name. */
  lemma NotTheNext(entries: seq<Entry>, mode: nat, i: nat, h: Fields)
    requires i + 1 < |entries| && (forall e :: e in entries ==> EntryOk(e)) && EmptyFile(entries[i])
    requires |Body(entries[..i])| + 512 + 15 + |h.name| <= h.data
    ensures h != FieldsOf(entries[i + 1], |Body(entries[..i + 1])|)
  {
    EntryPlace(entries, i, mode);
    EmptySkip(entries[i]);
  }

  lemma LastEmpty(entries: seq<Entry>, mode: nat)
    requires entries != [] && (forall e :: e in entries ==> EntryOk(e)) && EmptyFile(entries[|entries| - 1])
    ensures var image := Image(entries, mode);
      |Body(entries[..|entries| - 1])| + 512 > |image|
        && PlaceAt(image, |Body(entries[..|entries| - 1])| + 512) == Beyond
  {
    var i := |entries| - 1;
    EntryPlace(entries, i, mode);
    EmptySkip(entries[i]);
    EndAt(entries, mode);
    assert entries[..i + 1] == entries;
  }

  lemma Strays(entries: seq<Entry>, mode: nat, i: nat)
    requires i < |entries| && (forall e :: e in entries ==> EntryOk(e)) && EmptyFile(entries[i])
    requires forall k :: 0 <= k < i ==> !EmptyFile(entries[k])
    ensures var image := Image(entries, mode);
      Headers(PlacesOf(image), |image|, 0) != (AllFields(entries, Placed(entries)), Marker)
  {
    var image, q := Image(entries, mode), |Body(entries[..i])| + 512;
    var at := PlacesOf(image);
    var walk := Headers(at, |image|, 0);
    RestAfter(entries, mode, i);
    RestNext(at, |image|, walk, i + 1, q);
    NameFits(image, q);
    if i + 1 == |entries| {
      LastEmpty(entries, mode);
    } else if at(q).At? {
      NotTheNext(entries, mode, i, at(q).h);
    }
  }

  lemma FirstEmpty(entries: seq<Entry>, n: nat) returns (i: nat)
    requires n <= |entries|
    ensures i <= n && (i < n ==> EmptyFile(entries[i])) && forall k :: 0 <= k < i ==> !EmptyFile(entries[k])
  {
    i := 0;
    while i < n && !EmptyFile(entries[i])
      invariant i <= n && forall k :: 0 <= k < i ==> !EmptyFile(entries[k])
    {
      i := i + 1;
    }
  }

  /** The walk of both readers meets exactly what was archived if and only if no regular file in it is empty. */
  lemma WalkExact(entries: seq<Entry>, mode: nat)
    requires forall e :: e in entries ==> EntryOk(e)
    ensures var image := Image(entries, mode);
      Headers(PlacesOf(image), |image|, 0) == (AllFields(entries, Placed(entries)), Marker)
      <==> forall e :: e in entries ==> !EmptyFile(e)
  {
    var i := FirstEmpty(entries, |entries|);
    if i < |entries| {
      Strays(entries, mode, i);
    } else {
      ImageLaid(entries, mode);
      EndSeen(entries, mode);
      assert entries[..|entries|] == entries;
      WalkMeetsAll(Image(entries, mode), entries, Placed(entries));
    }
  }

  /**
   * After an empty file that comes last the walk leaves the image: a lookup of any name not
   * archived reads beyond it.
   */
  lemma EmptyFileLost(entries: seq<Entry>, mode: nat, path: Bytes)
    requires entries != [] && (forall e :: e in entries ==> EntryOk(e)) && EmptyFile(entries[|entries| - 1])
    requires forall k :: 0 <= k < |entries| - 1 ==> !EmptyFile(entries[k])
    ensures var image := Image(entries, mode);
      Pick(Headers(PlacesOf(image), |image|, 0), path).Outside? <==> forall e :: e in entries ==> e.name != path
  {
    var image, i := Image(entries, mode), |entries| - 1;
    var at := PlacesOf(image);
    var walk := Headers(at, |image|, 0);
    RestAlong(entries, mode, i);
    RestAfter(entries, mode, i);
    LastEmpty(entries, mode);
    RestEnds(at, |image|, walk, i + 1, |Body(entries[..i])| + 512);
    NamesMet(walk.0, entries, Placed(entries), i);
    PickNames(walk, entries, path);
  }

  lemma RestEnds(at: nat -> Place, n: nat, walk: (seq<Fields>, Place), k: nat, p: nat)
    requires Rest(at, n, walk, k, p) && at(p) == Beyond
    ensures k == |walk.0| && walk.1 == Beyond
  {
    RestNext(at, n, walk, k, p);
  }

  lemma NamesMet(hs: seq<Fields>, entries: seq<Entry>, offs: seq<nat>, i: nat)
    requires |hs| == |entries| == i + 1 && |offs| == |entries| + 1
    requires hs[..i] == AllFields(entries, offs)[..i] && hs[i].name == entries[i].name
    ensures forall k :: 0 <= k < |entries| ==> hs[k].name == entries[k].name
  {
    forall k | 0 <= k < i ensures hs[k].name == entries[k].name { assert hs[k] == hs[..i][k]; }
  }

  lemma PickNames(walk: (seq<Fields>, Place), entries: seq<Entry>, path: Bytes)
    requires |walk.0| == |entries| && walk.1 == Beyond
    requires forall k :: 0 <= k < |entries| ==> walk.0[k].name == entries[k].name
    ensures Pick(walk, path).Outside? <==> forall e :: e in entries ==> e.name != path
  {
    var j := FirstNamed(walk.0, 0, path);
    assert j < |entries| ==> entries[j] in entries;
  }

  /** The end marker is recognised by its first five bytes, even if the image ends with them. */
  lemma MarkerAlone(path: Bytes)
    ensures Pick(Headers(PlacesOf(END_MAGIC + [0]), 5, 0), path) == NotFound
  {
    var image := END_MAGIC + [0];
    assert image[0..5] == image;
    assert PlaceAt(image, 0) == Marker;
  }

  /** An archive of one empty file: looking for another name reads beyond the image. */
  lemma EmptyFileInput()
    ensures var image := Image([File([97], 0, [])], 0); Pick(Headers(PlacesOf(image), |image|, 0), [98]) == Outside
  {
    EmptyFileLost([File([97], 0, [])], 0, [98]);
  }
}
