/** The binary form of a directory snapshot, in both versions. */
module DirectoryCodec {
  import opened Common
  import opened Encodings
  import Paths

  const MAX_PATH: nat := 1024 * 1024

  datatype Version = V1 | V2

  datatype Kind = File | SymlinkFile | SymlinkDir

  datatype Entry = Entry(kind: Kind, mode: nat, path: Bytes, content: Bytes)

  function Magic(v: Version): (m: Bytes)
    ensures |m| == 18
  {
    (if v.V1? then Ascii("once.directory.v1") else Ascii("once.directory.v2")) + [0]
  }

  lemma MagicsDiffer()
    ensures Magic(V1) != Magic(V2)
  {
    assert Magic(V1)[16] == '1' as int && Magic(V2)[16] == '2' as int;
  }

  function KindByte(k: Kind): (b: byte) {
    match k case File => 1 case SymlinkFile => 2 case SymlinkDir => 3
  }

  function KindFromByte(b: byte): (k: Option<Kind>)
    ensures forall kind :: k == Some(kind) <==> b == KindByte(kind)
  {
    if b == 1 then Some(File) else if b == 2 then Some(SymlinkFile)
    else if b == 3 then Some(SymlinkDir) else None
  }

  /** What an entry must satisfy to be read back. The first version holds files only. */
  predicate Storable(v: Version, e: Entry) {
    && (v.V1? ==> e.kind.File?)
    && e.mode <= U32_MAX && |e.content| <= U64_MAX
    && |e.path| <= MAX_PATH && IsUtf8(e.path)
    && Paths.Parse(e.path).Ok? && Paths.Parse(e.path).value != []
    && (!e.kind.File? ==> |e.content| <= MAX_PATH && IsUtf8(e.content))
  }

  predicate AllStorable(v: Version, es: seq<Entry>) {
    forall e :: e in es ==> Storable(v, e)
  }

  function KindField(v: Version, k: Kind): (s: Bytes) {
    if v.V1? then [] else [KindByte(k)]
  }

  /** The integers in front of an entry's path. */
  datatype Header = Header(kind: Kind, pathLen: nat, mode: nat, contentLen: nat)

  function EncodeHeader(v: Version, h: Header): (s: Bytes) {
    KindField(v, h.kind) + (ToLe(h.pathLen, 4) + (ToLe(h.mode, 4) + ToLe(h.contentLen, 8)))
  }

  function HeaderOf(e: Entry): (h: Header) {
    Header(e.kind, |e.path|, e.mode, |e.content|)
  }

  function EncodeEntry(v: Version, e: Entry): (s: Bytes) {
    EncodeHeader(v, HeaderOf(e)) + (e.path + e.content)
  }

  function EncodeEntries(v: Version, es: seq<Entry>): (s: Bytes) {
    if es == [] then [] else EncodeEntry(v, es[0]) + EncodeEntries(v, es[1..])
  }

  function Encode(v: Version, es: seq<Entry>): (s: Bytes) {
    Magic(v) + EncodeEntries(v, es)
  }

  /** What the reader finds next. */
  datatype Read = End | Bad | Got(entry: Entry, rest: Bytes)

  datatype HeaderRead = NoHeader | GotHeader(header: Header, rest: Bytes)

  function DecodeHeader(v: Version, s: Bytes): (r: HeaderRead)
    ensures r.GotHeader? ==> |r.rest| < |s|
  {
    if s == [] then NoHeader
    else
      var kind := if v.V1? then Some(File) else KindFromByte(s[0]);
      var pathLen := TakeLe(if v.V1? then s else s[1..], 4);
      if kind.None? || pathLen.Missing? || pathLen.value > MAX_PATH then NoHeader
      else
        var mode := TakeLe(pathLen.rest, 4);
        if mode.Missing? then NoHeader
        else
          var len := TakeLe(mode.rest, 8);
          if len.Missing? then NoHeader
          else GotHeader(Header(kind.value, pathLen.value, mode.value, len.value), len.rest)
  }

  /** The next entry of a stream: `read_streamed_directory_entry` and the content read after it. */
  function DecodeEntry(v: Version, s: Bytes): (r: Read)
    ensures r.Got? ==> |r.rest| < |s|
  {
    if s == [] then End
    else
      var h := DecodeHeader(v, s);
      if h.NoHeader? || |h.rest| < h.header.pathLen + h.header.contentLen then Bad
      else
        var body := h.rest[h.header.pathLen..];
        var e := Entry(h.header.kind, h.header.mode, h.rest[..h.header.pathLen], body[..h.header.contentLen]);
        if Storable(v, e) then Got(e, body[h.header.contentLen..]) else Bad
  }

  function DecodeEntries(v: Version, s: Bytes): (r: Result<seq<Entry>>)
    decreases |s|
  {
    match DecodeEntry(v, s)
    case End => Ok([])
    case Bad => Err
    case Got(e, rest) =>
      match DecodeEntries(v, rest)
      case Err => Err
      case Ok(es) => Ok([e] + es)
  }

  datatype Blob = Blob(version: Version, entries: seq<Entry>)

  /** The version whose magic `s` starts with. */
  function VersionOf(s: Bytes): (v: Option<Version>) {
    if Magic(V1) <= s then Some(V1) else if Magic(V2) <= s then Some(V2) else None
  }

  function Decode(s: Bytes): (r: Result<Blob>) {
    match VersionOf(s)
    case None => Err
    case Some(v) =>
      match DecodeEntries(v, s[|Magic(v)|..])
      case Err => Err
      case Ok(es) => Ok(Blob(v, es))
  }

  // ----- One entry ---------------------------------------------------------------

  lemma Assoc(a: Bytes, b: Bytes, c: Bytes)
    ensures (a + b) + c == a + (b + c)
  {
  }

  lemma EncodedHeader(v: Version, h: Header, rest: Bytes)
    ensures EncodeHeader(v, h) + rest ==
            KindField(v, h.kind) + (ToLe(h.pathLen, 4) + (ToLe(h.mode, 4) + (ToLe(h.contentLen, 8) + rest)))
  {
    var p, m, c := ToLe(h.pathLen, 4), ToLe(h.mode, 4), ToLe(h.contentLen, 8);
    Assoc(KindField(v, h.kind), p + (m + c), rest);
    Assoc(p, m + c, rest);
    Assoc(m, c, rest);
  }

  lemma DecodeEncodeHeader(v: Version, h: Header, rest: Bytes)
    requires v.V1? ==> h.kind.File?
    requires h.pathLen <= MAX_PATH && h.mode <= U32_MAX && h.contentLen <= U64_MAX
    ensures DecodeHeader(v, EncodeHeader(v, h) + rest) == GotHeader(h, rest)
  {
    Widths();
    EncodedHeader(v, h, rest);
    var s3 := ToLe(h.contentLen, 8) + rest;
    var s2 := ToLe(h.mode, 4) + s3;
    var s1 := ToLe(h.pathLen, 4) + s2;
    TakeToLe(h.contentLen, 8, rest);
    TakeToLe(h.mode, 4, s3);
    TakeToLe(h.pathLen, 4, s2);
    var s := KindField(v, h.kind) + s1;
    assert s != [] by {
      assert |s1| >= 4;
    }
    if v.V1? {
      assert s == s1;
    } else {
      assert s[0] == KindByte(h.kind) && s[1..] == s1;
    }
  }

  lemma EncodeDecodeHeader(v: Version, s: Bytes)
    requires DecodeHeader(v, s).GotHeader?
    ensures var r := DecodeHeader(v, s); s == EncodeHeader(v, r.header) + r.rest
  {
    var r := DecodeHeader(v, s);
    EncodedHeader(v, r.header, r.rest);
    var s1 := if v.V1? then s else s[1..];
    assert s == KindField(v, r.header.kind) + s1;
    TakeIsToLe(s1, 4);
    var s2 := TakeLe(s1, 4).rest;
    TakeIsToLe(s2, 4);
    TakeIsToLe(TakeLe(s2, 4).rest, 8);
  }

  /** Reading an encoded entry gives it back and leaves what follows it. */
  lemma DecodeEncodeEntry(v: Version, e: Entry, rest: Bytes)
    requires Storable(v, e)
    ensures DecodeEntry(v, EncodeEntry(v, e) + rest) == Got(e, rest)
    ensures EncodeEntry(v, e) != []
  {
    var h, tail := HeaderOf(e), e.path + (e.content + rest);
    DecodeEncodeHeader(v, h, tail);
    DecodeEncodeHeader(v, h, []);
    Assoc(EncodeHeader(v, h), e.path + e.content, rest);
    Assoc(e.path, e.content, rest);
    assert tail[..|e.path|] == e.path && tail[|e.path|..] == e.content + rest;
    assert (e.content + rest)[..|e.content|] == e.content && (e.content + rest)[|e.content|..] == rest;
  }

  lemma Cut(s: Bytes, p: nat, c: nat)
    requires p + c <= |s|
    ensures s == s[..p] + (s[p..][..c] + s[p..][c..])
  {
  }

  /** Nothing else is read: the bytes of an entry are its encoding. */
  lemma EncodeDecodeEntry(v: Version, s: Bytes)
    requires DecodeEntry(v, s).Got?
    ensures var r := DecodeEntry(v, s); Storable(v, r.entry) && s == EncodeEntry(v, r.entry) + r.rest
  {
    var r := DecodeEntry(v, s);
    var e, h := r.entry, DecodeHeader(v, s);
    EncodeDecodeHeader(v, s);
    Cut(h.rest, h.header.pathLen, h.header.contentLen);
    assert h.header == HeaderOf(e) && h.rest == e.path + (e.content + r.rest);
    Assoc(EncodeHeader(v, h.header), e.path + e.content, r.rest);
    Assoc(e.path, e.content, r.rest);
  }

  // ----- Whole blobs -------------------------------------------------------------

  lemma {:induction false} DecodeEncodeEntries(v: Version, es: seq<Entry>)
    requires AllStorable(v, es)
    ensures DecodeEntries(v, EncodeEntries(v, es)) == Ok(es)
  {
    hide EncodeEntry, Storable, AllStorable;
    if es == [] {
    } else {
      AllStorableCons(v, es);
      DecodeEncodeEntries(v, es[1..]);
      DecodeEncodeEntry(v, es[0], EncodeEntries(v, es[1..]));
    }
  }

  lemma {:induction false} EncodeDecodeEntries(v: Version, s: Bytes)
    requires DecodeEntries(v, s).Ok?
    ensures var es := DecodeEntries(v, s).value; AllStorable(v, es) && s == EncodeEntries(v, es)
    decreases |s|
  {
    var r := DecodeEntry(v, s);
    if r.Got? {
      EncodeDecodeEntry(v, s);
      EncodeDecodeEntries(v, r.rest);
    }
  }

  lemma VersionOfEncoded(v: Version, rest: Bytes)
    ensures VersionOf(Magic(v) + rest) == Some(v)
  {
    MagicsDiffer();
    var s := Magic(v) + rest;
    assert s[..18] == Magic(v);
  }

  lemma VersionOfSplit(s: Bytes)
    requires VersionOf(s).Some?
    ensures var m := Magic(VersionOf(s).value); m <= s && s == m + s[|m|..]
  {
  }

  /** The reader accepts exactly the encodings of storable entries, and returns those entries. */
  lemma DecodeIff(s: Bytes, b: Blob)
    ensures Decode(s) == Ok(b) <==> AllStorable(b.version, b.entries) && s == Encode(b.version, b.entries)
  {
    var m := Magic(b.version);
    if Decode(s) == Ok(b) {
      VersionOfSplit(s);
      EncodeDecodeEntries(b.version, s[|m|..]);
    } else if AllStorable(b.version, b.entries) && s == Encode(b.version, b.entries) {
      VersionOfEncoded(b.version, EncodeEntries(b.version, b.entries));
      assert s[|m|..] == EncodeEntries(b.version, b.entries);
      DecodeEncodeEntries(b.version, b.entries);
    }
  }

  /** Two storable entry lists with one encoding are the same list. */
  lemma EncodeInjective(v: Version, es: seq<Entry>, v': Version, es': seq<Entry>)
    requires AllStorable(v, es) && AllStorable(v', es') && Encode(v, es) == Encode(v', es')
    ensures v == v' && es == es'
  {
    DecodeIff(Encode(v, es), Blob(v, es));
    DecodeIff(Encode(v, es), Blob(v', es'));
  }

  // ----- Entries of any length ---------------------------------------------------

  /** The fields fit their widths; the writer asks no more of an entry. */
  predicate Sized(e: Entry) {
    e.mode <= U32_MAX && |e.path| <= U32_MAX && |e.content| <= U64_MAX
  }

  predicate AllSized(es: seq<Entry>) {
    forall e :: e in es ==> Sized(e)
  }

  lemma LesAgree(m: nat, x: Bytes, n: nat, y: Bytes, k: nat)
    requires m < Pow256(k) && n < Pow256(k) && ToLe(m, k) + x == ToLe(n, k) + y
    ensures m == n && x == y
  {
    TailsAgree(ToLe(m, k), x, ToLe(n, k), y);
    FromToLe(m, k);
    FromToLe(n, k);
  }

  lemma SizedHeadersAgree(g: Header, x: Bytes, h: Header, y: Bytes)
    requires g.pathLen <= U32_MAX && g.mode <= U32_MAX && g.contentLen <= U64_MAX
    requires h.pathLen <= U32_MAX && h.mode <= U32_MAX && h.contentLen <= U64_MAX
    requires EncodeHeader(V2, g) + x == EncodeHeader(V2, h) + y
    ensures g == h && x == y
  {
    hide ToLe, Pow256;
    Widths();
    EncodedHeader(V2, g, x);
    EncodedHeader(V2, h, y);
    var p, q := ToLe(g.contentLen, 8) + x, ToLe(h.contentLen, 8) + y;
    var r, s := ToLe(g.mode, 4) + p, ToLe(h.mode, 4) + q;
    TailsAgree([KindByte(g.kind)], ToLe(g.pathLen, 4) + r, [KindByte(h.kind)], ToLe(h.pathLen, 4) + s);
    LesAgree(g.pathLen, r, h.pathLen, s, 4);
    LesAgree(g.mode, p, h.mode, q, 4);
    LesAgree(g.contentLen, x, h.contentLen, y, 8);
  }

  lemma SizedHeadsAgree(a: Entry, x: Bytes, b: Entry, y: Bytes)
    requires Sized(a) && Sized(b) && EncodeEntry(V2, a) + x == EncodeEntry(V2, b) + y
    ensures a == b && x == y
  {
    hide EncodeHeader;
    Assoc(EncodeHeader(V2, HeaderOf(a)), a.path + a.content, x);
    Assoc(EncodeHeader(V2, HeaderOf(b)), b.path + b.content, y);
    Assoc(a.path, a.content, x);
    Assoc(b.path, b.content, y);
    SizedHeadersAgree(HeaderOf(a), a.path + (a.content + x), HeaderOf(b), b.path + (b.content + y));
    TailsAgree(a.path, a.content + x, b.path, b.content + y);
    TailsAgree(a.content, x, b.content, y);
  }

  lemma EncodedNotEmpty(e: Entry, rest: Bytes)
    ensures EncodeEntry(V2, e) + rest != []
  {
    hide ToLe;
  }

  lemma {:induction false} SizedEntriesAgree(es: seq<Entry>, fs: seq<Entry>)
    requires AllSized(es) && AllSized(fs) && EncodeEntries(V2, es) == EncodeEntries(V2, fs)
    ensures es == fs
  {
    hide EncodeEntry, Sized;
    if es == [] {
      if fs != [] {
        EncodedNotEmpty(fs[0], EncodeEntries(V2, fs[1..]));
      }
    } else if fs == [] {
      EncodedNotEmpty(es[0], EncodeEntries(V2, es[1..]));
    } else {
      assert es[0] in es && fs[0] in fs;
      SizedHeadsAgree(es[0], EncodeEntries(V2, es[1..]), fs[0], EncodeEntries(V2, fs[1..]));
      assert AllSized(es[1..]) && AllSized(fs[1..]);
      SizedEntriesAgree(es[1..], fs[1..]);
      assert es == [es[0]] + es[1..] && fs == [fs[0]] + fs[1..];
    }
  }

  /** What is written determines the entries, also where the reader would refuse them. */
  lemma WrittenInjective(es: seq<Entry>, fs: seq<Entry>)
    requires AllSized(es) && AllSized(fs) && Encode(V2, es) == Encode(V2, fs)
    ensures es == fs
  {
    hide EncodeEntries, AllSized;
    TailsAgree(Magic(V2), EncodeEntries(V2, es), Magic(V2), EncodeEntries(V2, fs));
    SizedEntriesAgree(es, fs);
  }

  lemma PrefixCancel(head: Bytes, tail: Bytes, s: Bytes)
    requires head + tail <= s
    ensures s == head + s[|head|..] && tail <= s[|head|..]
  {
    assert s[..|head + tail|] == head + tail;
    assert s[|head|..][..|tail|] == s[..|head + tail|][|head|..];
  }

  /** Encoded entries are told apart by their own bytes, whatever follows them. */
  lemma HeadsAgree(v: Version, a: Entry, x: Bytes, b: Entry, y: Bytes)
    requires Storable(v, a) && Storable(v, b) && EncodeEntry(v, a) + x == EncodeEntry(v, b) + y
    ensures a == b && x == y
  {
    DecodeEncodeEntry(v, a, x);
    DecodeEncodeEntry(v, b, y);
  }

  lemma HeadNotEmpty(v: Version, e: Entry)
    requires Storable(v, e)
    ensures EncodeEntry(v, e) != []
  {
    DecodeEncodeEntry(v, e, []);
  }

  lemma AllStorableCons(v: Version, es: seq<Entry>)
    requires es != [] && AllStorable(v, es)
    ensures Storable(v, es[0]) && AllStorable(v, es[1..]) && es == [es[0]] + es[1..]
  {
    assert es == [es[0]] + es[1..];
    forall e | e in es[1..] ensures Storable(v, e) {
      assert e in es;
    }
  }

  /** An entry list whose encoding starts another's starts that list. */
  lemma {:induction false} PrefixEntries(v: Version, short: seq<Entry>, long: seq<Entry>)
    requires AllStorable(v, short) && AllStorable(v, long)
    requires EncodeEntries(v, short) <= EncodeEntries(v, long)
    ensures short <= long
    decreases short
  {
    if short == [] {
    } else {
      AllStorableCons(v, short);
      var s, a := EncodeEntries(v, long), short[0];
      PrefixCancel(EncodeEntry(v, a), EncodeEntries(v, short[1..]), s);
      HeadNotEmpty(v, a);
      assert long != [];
      AllStorableCons(v, long);
      HeadsAgree(v, a, s[|EncodeEntry(v, a)|..], long[0], EncodeEntries(v, long[1..]));
      PrefixEntries(v, short[1..], long[1..]);
    }
  }

  lemma EncodedPrefix(part: Blob, whole: Blob)
    requires AllStorable(part.version, part.entries) && AllStorable(whole.version, whole.entries)
    requires Encode(part.version, part.entries) < Encode(whole.version, whole.entries)
    ensures part.version == whole.version && part.entries < whole.entries
  {
    var s := Encode(whole.version, whole.entries);
    var tail := EncodeEntries(part.version, part.entries);
    SameVersion(part.version, whole.version, tail, s);
    PrefixCancel(Magic(part.version), tail, s);
    assert s[|Magic(part.version)|..] == EncodeEntries(whole.version, whole.entries);
    PrefixEntries(part.version, part.entries, whole.entries);
    assert |part.entries| == |whole.entries| ==> part.entries == whole.entries;
  }

  /** A truncated blob is rejected or decodes to fewer entries, never to other ones. */
  lemma Truncated(s: Bytes, n: nat)
    requires Decode(s).Ok? && n < |s|
    ensures Decode(s[..n]).Ok? ==>
              && Decode(s[..n]).value.version == Decode(s).value.version
              && Decode(s[..n]).value.entries < Decode(s).value.entries
  {
    var t := s[..n];
    if Decode(t).Ok? {
      var whole, part := Decode(s).value, Decode(t).value;
      DecodeIff(s, whole);
      DecodeIff(t, part);
      EncodedPrefix(part, whole);
    }
  }

  lemma SameVersion(v: Version, v': Version, tail: Bytes, s: Bytes)
    requires Magic(v) + tail <= s && Magic(v') <= s
    ensures v == v'
  {
    MagicsDiffer();
    assert s[..18] == (Magic(v) + tail)[..18] == Magic(v);
    assert s[..18] == Magic(v');
  }
}
