/** Input digests: the builder, and the digest of one source path. */
module InputDigest {
  import opened Common
  import opened Encodings
  import Codec = DirectoryCodec

  // ----- NUL-delimited records ---------------------------------------------------

  /** A label, a NUL, and a tail. */
  datatype Pair = Pair(key: Bytes, tail: Bytes)

  function EncodePair(p: Pair): (s: Bytes) {
    p.key + ([0] + p.tail)
  }

  function EncodePairs(ps: seq<Pair>): (s: Bytes) {
    if ps == [] then [] else EncodePair(ps[0]) + EncodePairs(ps[1..])
  }

  /** Labels hold no NUL and every tail is `k` bytes long. */
  predicate Delimited(ps: seq<Pair>, k: nat) {
    forall i :: 0 <= i < |ps| ==> 0 !in ps[i].key && |ps[i].tail| == k
  }

  /** What follows a NUL-free label is found again: the first NUL ends it. */
  lemma {:induction false} LabelsAgree(a: Bytes, x: Bytes, b: Bytes, y: Bytes)
    requires 0 !in a && 0 !in b && a + ([0] + x) == b + ([0] + y)
    ensures a == b && x == y
  {
    var s := a + ([0] + x);
    if a == [] {
      assert s[0] == 0;
      assert s[1..] == x && s[1..] == y;
    } else {
      assert s[0] == a[0] != 0;
      assert b != [] && b[0] == a[0];
      assert s[1..] == a[1..] + ([0] + x) == b[1..] + ([0] + y);
      LabelsAgree(a[1..], x, b[1..], y);
      assert a == [a[0]] + a[1..] && b == [b[0]] + b[1..];
    }
  }

  lemma Regroup(p: Pair, rest: Bytes)
    ensures EncodePair(p) + rest == p.key + ([0] + (p.tail + rest))
  {
  }

  /** Two sequences of delimited records with one encoding are the same sequence. */
  lemma {:induction false} PairsInjective(ps: seq<Pair>, qs: seq<Pair>, k: nat)
    requires Delimited(ps, k) && Delimited(qs, k) && EncodePairs(ps) == EncodePairs(qs)
    ensures ps == qs
  {
    if ps != [] && qs != [] {
      var x, y := EncodePairs(ps[1..]), EncodePairs(qs[1..]);
      Regroup(ps[0], x);
      Regroup(qs[0], y);
      LabelsAgree(ps[0].key, ps[0].tail + x, qs[0].key, qs[0].tail + y);
      TailsAgree(ps[0].tail, x, qs[0].tail, y);
      PairsInjective(ps[1..], qs[1..], k);
      assert ps == [ps[0]] + ps[1..] && qs == [qs[0]] + qs[1..];
    }
  }

  // ----- The builder -------------------------------------------------------------

  datatype Keyed = Keyed(key: Bytes, digest: Digest)

  function PairOf(k: Keyed): (p: Pair) {
    Pair(k.key, k.digest + [0])
  }

  function PairsOf(ks: seq<Keyed>): (ps: seq<Pair>) {
    seq(|ks|, i requires 0 <= i < |ks| => PairOf(ks[i]))
  }

  /** The buffer after pushing `ks` under `domain`. */
  function KeyedBuffer(domain: Bytes, ks: seq<Keyed>): (buf: Bytes) {
    domain + EncodePairs(PairsOf(ks))
  }

  predicate NulFree(ks: seq<Keyed>) {
    forall i :: 0 <= i < |ks| ==> 0 !in ks[i].key
  }

  lemma KeyedInjective(domain: Bytes, ks: seq<Keyed>, ls: seq<Keyed>)
    requires NulFree(ks) && NulFree(ls) && KeyedBuffer(domain, ks) == KeyedBuffer(domain, ls)
    ensures ks == ls
  {
    var ps, qs := PairsOf(ks), PairsOf(ls);
    TailsAgree(domain, EncodePairs(ps), domain, EncodePairs(qs));
    PairsInjective(ps, qs, 33);
    forall i | 0 <= i < |ks| ensures ks[i] == ls[i] {
      assert ps[i] == PairOf(ks[i]) && qs[i] == PairOf(ls[i]);
      TailsAgree(ks[i].digest, [0], ls[i].digest, [0]);
    }
  }

  /** Two sequences of keyed pushes under one domain that give one digest are the same sequence, or their
      buffers collide. */
  lemma SameDigestSamePushes(hash: Bytes -> Digest, domain: Bytes, ks: seq<Keyed>, ls: seq<Keyed>)
    requires NulFree(ks) && NulFree(ls)
    requires hash(KeyedBuffer(domain, ks)) == hash(KeyedBuffer(domain, ls))
    ensures ks == ls || Collision(hash, KeyedBuffer(domain, ks), KeyedBuffer(domain, ls))
  {
    if KeyedBuffer(domain, ks) == KeyedBuffer(domain, ls) {
      KeyedInjective(domain, ks, ls);
    }
  }

  /** A NUL in a label lets two different sequences build one buffer, whatever the hash. */
  lemma NulLabelConfuses(domain: Bytes, a: Bytes, d: Digest, b: Bytes, e: Digest)
    ensures KeyedBuffer(domain, [Keyed(a, d), Keyed(b, e)]) ==
            KeyedBuffer(domain, [Keyed(a + ([0] + (d + ([0] + b))), e)])
  {
    var two, one := [Keyed(a, d), Keyed(b, e)], [Keyed(a + ([0] + (d + ([0] + b))), e)];
    assert PairsOf(two) == [PairOf(two[0]), PairOf(two[1])] && PairsOf(one) == [PairOf(one[0])];
    assert PairsOf(two)[1..] == [PairOf(two[1])] && PairsOf(two)[1..][1..] == [] && PairsOf(one)[1..] == [];
    assert EncodePairs(PairsOf(two)[1..]) == EncodePair(PairOf(two[1])) + [];
    assert EncodePairs(PairsOf(one)) == EncodePair(PairOf(one[0])) + [];
  }

  datatype Component = Component(category: string, key: string, digest: Digest)

  /** One call on the builder. */
  datatype Call =
    | PushKeyed(key: Bytes, digest: Digest)
    | PushKeyedComponent(category: string, name: string, key: Bytes, digest: Digest)
    | PushBytes(bytes: Bytes)
    | PushBytesComponent(category: string, name: string, bytes: Bytes)
    | RecordDigest(category: string, name: string, digest: Digest)
    | RecordBytes(category: string, name: string, bytes: Bytes)

  /** What a call appends to the hashed buffer. */
  function Fed(c: Call): (s: Bytes) {
    match c
    case PushKeyed(key, digest) => key + [0] + digest + [0]
    case PushKeyedComponent(_, _, key, digest) => key + [0] + digest + [0]
    case PushBytes(bytes) => bytes + [0]
    case PushBytesComponent(_, _, bytes) => bytes + [0]
    case RecordDigest(_, _, _) => []
    case RecordBytes(_, _, _) => []
  }

  function FedAll(calls: seq<Call>): (s: Bytes) {
    if calls == [] then [] else FedAll(calls[..|calls| - 1]) + Fed(calls[|calls| - 1])
  }

  // ----- What a builder hashes, as records ---------------------------------------

  /** The NUL-delimited record a call adds: a label and its digest, bytes alone, or none when it only records. */
  function RecordOf(c: Call): (ps: seq<Pair>) {
    match c
    case PushKeyed(key, digest) => [Pair(key, digest + [0])]
    case PushKeyedComponent(_, _, key, digest) => [Pair(key, digest + [0])]
    case PushBytes(bytes) => [Pair(bytes, [])]
    case PushBytesComponent(_, _, bytes) => [Pair(bytes, [])]
    case RecordDigest(_, _, _) => []
    case RecordBytes(_, _, _) => []
  }

  function Records(calls: seq<Call>): (ps: seq<Pair>) {
    if calls == [] then [] else Records(calls[..|calls| - 1]) + RecordOf(calls[|calls| - 1])
  }

  lemma {:induction false} EncodePairsAppend(ps: seq<Pair>, qs: seq<Pair>)
    ensures EncodePairs(ps + qs) == EncodePairs(ps) + EncodePairs(qs)
  {
    if ps == [] {
      assert ps + qs == qs;
    } else {
      EncodePairsAppend(ps[1..], qs);
      assert (ps + qs)[1..] == ps[1..] + qs;
      Codec.Assoc(EncodePair(ps[0]), EncodePairs(ps[1..]), EncodePairs(qs));
    }
  }

  lemma FedIsRecord(c: Call)
    ensures Fed(c) == EncodePairs(RecordOf(c))
  {
    if RecordOf(c) == [] {
    } else {
      var p := RecordOf(c)[0];
      assert RecordOf(c) == [p] && [p][1..] == [];
      assert EncodePairs([p]) == EncodePair(p) + [];
    }
  }

  /** What the calls feed to the hash are their records, in order. */
  lemma {:induction false} FedIsRecords(calls: seq<Call>)
    ensures FedAll(calls) == EncodePairs(Records(calls))
  {
    hide EncodePairs, Fed, RecordOf;
    if calls == [] {
      NoRecords();
    } else {
      var n := |calls| - 1;
      FedIsRecords(calls[..n]);
      FedIsRecord(calls[n]);
      EncodePairsAppend(Records(calls[..n]), RecordOf(calls[n]));
    }
  }

  lemma NoRecords()
    ensures EncodePairs([]) == []
  {
  }

  /** The keyed pushes among the calls. */
  function KeyedOf(calls: seq<Call>): (ks: seq<Keyed>) {
    if calls == [] then []
    else
      var c := calls[|calls| - 1];
      KeyedOf(calls[..|calls| - 1])
      + if c.PushKeyed? || c.PushKeyedComponent? then [Keyed(c.key, c.digest)] else []
  }

  /** The bytes pushed without a label. */
  function BytesOf(calls: seq<Call>): (bs: seq<Bytes>) {
    if calls == [] then []
    else
      var c := calls[|calls| - 1];
      BytesOf(calls[..|calls| - 1]) + if c.PushBytes? || c.PushBytesComponent? then [c.bytes] else []
  }

  predicate NoBytes(calls: seq<Call>) {
    forall i :: 0 <= i < |calls| ==> !calls[i].PushBytes? && !calls[i].PushBytesComponent?
  }

  predicate NoKeyed(calls: seq<Call>) {
    forall i :: 0 <= i < |calls| ==> !calls[i].PushKeyed? && !calls[i].PushKeyedComponent?
  }

  lemma {:induction false} KeyedRecords(calls: seq<Call>)
    requires NoBytes(calls)
    ensures Records(calls) == PairsOf(KeyedOf(calls))
  {
    if calls == [] {
    } else {
      KeyedRecords(calls[..|calls| - 1]);
    }
  }

  function BytesPairs(bs: seq<Bytes>): (ps: seq<Pair>) {
    seq(|bs|, i requires 0 <= i < |bs| => Pair(bs[i], []))
  }

  lemma {:induction false} BytesRecords(calls: seq<Call>)
    requires NoKeyed(calls)
    ensures Records(calls) == BytesPairs(BytesOf(calls))
  {
    if calls == [] {
    } else {
      BytesRecords(calls[..|calls| - 1]);
    }
  }

  /** Two builders of keyed pushes under one domain, with labels that hold no NUL, that give one digest were
      pushed the same labels with the same digests in the same order, or their buffers collide. */
  lemma SameDigestSameKeyed(hash: Bytes -> Digest, domain: Bytes, a: seq<Call>, b: seq<Call>)
    requires NoBytes(a) && NoBytes(b) && NulFree(KeyedOf(a)) && NulFree(KeyedOf(b))
    requires hash(domain + FedAll(a)) == hash(domain + FedAll(b))
    ensures KeyedOf(a) == KeyedOf(b) || Collision(hash, domain + FedAll(a), domain + FedAll(b))
  {
    hide FedAll, Records, KeyedOf, EncodePairs;
    FedIsRecords(a);
    FedIsRecords(b);
    KeyedRecords(a);
    KeyedRecords(b);
    SameDigestSamePushes(hash, domain, KeyedOf(a), KeyedOf(b));
  }

  /** The same for bytes pushed without a label, when they hold no NUL. */
  lemma SameDigestSameBytes(hash: Bytes -> Digest, domain: Bytes, a: seq<Call>, b: seq<Call>)
    requires NoKeyed(a) && NoKeyed(b)
    requires forall i :: 0 <= i < |BytesOf(a)| ==> 0 !in BytesOf(a)[i]
    requires forall i :: 0 <= i < |BytesOf(b)| ==> 0 !in BytesOf(b)[i]
    requires hash(domain + FedAll(a)) == hash(domain + FedAll(b))
    ensures BytesOf(a) == BytesOf(b) || Collision(hash, domain + FedAll(a), domain + FedAll(b))
  {
    hide FedAll, Records, BytesOf, EncodePairs;
    if domain + FedAll(a) == domain + FedAll(b) {
      var x, y := BytesOf(a), BytesOf(b);
      TailsAgree(domain, FedAll(a), domain, FedAll(b));
      FedIsRecords(a);
      FedIsRecords(b);
      BytesRecords(a);
      BytesRecords(b);
      PairsInjective(BytesPairs(x), BytesPairs(y), 0);
      forall i | 0 <= i < |x| ensures x[i] == y[i] {
        assert BytesPairs(x)[i] == BytesPairs(y)[i];
      }
    }
  }

  /** The push a call makes, without what it records. */
  function PlainOne(c: Call): (r: seq<Call>) {
    match c
    case PushKeyedComponent(_, _, key, digest) => [PushKeyed(key, digest)]
    case PushBytesComponent(_, _, bytes) => [PushBytes(bytes)]
    case RecordDigest(_, _, _) => []
    case RecordBytes(_, _, _) => []
    case _ => [c]
  }

  /** The same pushes with nothing recorded. */
  function Plain(calls: seq<Call>): (r: seq<Call>) {
    if calls == [] then [] else Plain(calls[..|calls| - 1]) + PlainOne(calls[|calls| - 1])
  }

  lemma PlainOneFeeds(front: seq<Call>, c: Call)
    ensures FedAll(front + PlainOne(c)) == FedAll(front) + Fed(c)
  {
    var all := front + PlainOne(c);
    if PlainOne(c) == [] {
      assert all == front && FedAll(front) + [] == FedAll(front);
    } else {
      assert all[..|front|] == front;
    }
  }

  /** Recording fingerprint components never changes what is hashed. */
  lemma {:induction false} RecordingIsSilent(calls: seq<Call>)
    ensures FedAll(Plain(calls)) == FedAll(calls)
  {
    if calls == [] {
    } else {
      var n := |calls| - 1;
      RecordingIsSilent(calls[..n]);
      PlainOneFeeds(Plain(calls[..n]), calls[n]);
    }
  }

  /** What a call records, given the hash of recorded bytes. */
  function Recorded(hash: Bytes -> Digest, c: Call): (cs: seq<Component>) {
    match c
    case PushKeyedComponent(category, name, _, digest) => [Component(category, name, digest)]
    case PushBytesComponent(category, name, bytes) => [Component(category, name, hash(bytes))]
    case RecordDigest(category, name, digest) => [Component(category, name, digest)]
    case RecordBytes(category, name, bytes) => [Component(category, name, hash(bytes))]
    case _ => []
  }

  function RecordedAll(hash: Bytes -> Digest, calls: seq<Call>): (cs: seq<Component>) {
    if calls == [] then [] else RecordedAll(hash, calls[..|calls| - 1]) + Recorded(hash, calls[|calls| - 1])
  }

  /** The call records a component. */
  predicate Recording(c: Call) {
    !c.PushKeyed? && !c.PushBytes?
  }

  /** Recording calls record one component each, in order, with the digest given or that of the bytes given. */
  lemma {:induction false} RecordedAt(hash: Bytes -> Digest, calls: seq<Call>, i: nat)
    requires i < |calls| && Recording(calls[i]) && forall j :: 0 <= j < |calls| ==> Recording(calls[j])
    ensures var cs := RecordedAll(hash, calls);
            && |cs| == |calls| && cs[i].category == calls[i].category && cs[i].key == calls[i].name
            && cs[i].digest == if calls[i].PushKeyedComponent? || calls[i].RecordDigest? then calls[i].digest
                               else hash(calls[i].bytes)
  {
    var n := |calls| - 1;
    if i < n {
      RecordedAt(hash, calls[..n], i);
    } else if n > 0 {
      RecordedAt(hash, calls[..n], 0);
    }
  }

  /** `InputDigestBuilder` */
  class Builder {
    const hash: Bytes -> Digest
    var buf: Bytes
    var components: seq<Component>

    constructor (hash: Bytes -> Digest, domain: Bytes)
      ensures this.hash == hash && buf == domain && components == []
    {
      this.hash := hash;
      buf := domain;
      components := [];
    }

    method PushKeyed(key: Bytes, digest: Digest)
      modifies this`buf
      ensures buf == old(buf) + Fed(Call.PushKeyed(key, digest)) == old(buf) + EncodePair(Pair(key, digest + [0]))
    {
      ghost var before := buf;
      buf := buf + key;
      buf := buf + [0];
      buf := buf + digest;
      buf := buf + [0];
      assert key + [0] + digest + [0] == EncodePair(Pair(key, digest + [0]));
      assert buf == before + (key + [0] + digest + [0]);
    }

    method PushBytes(bytes: Bytes)
      modifies this`buf
      ensures buf == old(buf) + Fed(Call.PushBytes(bytes)) == old(buf) + EncodePair(Pair(bytes, []))
    {
      ghost var before := buf;
      buf := buf + bytes;
      buf := buf + [0];
      assert buf == before + (bytes + [0]);
    }

    method RecordDigest(category: string, name: string, digest: Digest)
      modifies this`components
      ensures components == old(components) + [Component(category, name, digest)]
    {
      components := components + [Component(category, name, digest)];
    }

    method Apply(c: Call)
      modifies this
      ensures buf == old(buf) + Fed(c) && components == old(components) + Recorded(hash, c)
      ensures buf == old(buf) + EncodePairs(RecordOf(c))
    {
      FedIsRecord(c);
      hide EncodePairs, RecordOf;
      match c
      case PushKeyed(key, digest) => PushKeyed(key, digest);
      case PushBytes(bytes) => PushBytes(bytes);
      case PushKeyedComponent(category, name, key, digest) =>
        PushKeyed(key, digest);
        RecordDigest(category, name, digest);
      case PushBytesComponent(category, name, bytes) =>
        PushBytes(bytes);
        RecordDigest(category, name, hash(bytes));
      case RecordDigest(category, name, digest) => RecordDigest(category, name, digest);
      case RecordBytes(category, name, bytes) => RecordDigest(category, name, hash(bytes));
    }
  }

  /** A builder taken through `calls` and finished: the digest is that of the records pushed and of the same
      pushes with nothing recorded, and the manifest lists what was recorded. */
  method Build(hash: Bytes -> Digest, domain: Bytes, calls: seq<Call>)
    returns (digest: Digest, components: seq<Component>)
    ensures digest == hash(domain + EncodePairs(Records(calls))) == hash(domain + FedAll(Plain(calls)))
    ensures NoBytes(calls) ==> digest == hash(KeyedBuffer(domain, KeyedOf(calls)))
    ensures components == RecordedAll(hash, calls)
  {
    hide Fed, Recorded, Records, EncodePairs, KeyedOf;
    var b := new Builder(hash, domain);
    for i := 0 to |calls|
      invariant b.hash == hash && b.buf == domain + FedAll(calls[..i])
      invariant b.components == RecordedAll(hash, calls[..i])
    {
      assert calls[..i + 1][..i] == calls[..i];
      Codec.Assoc(domain, FedAll(calls[..i]), Fed(calls[i]));
      b.Apply(calls[i]);
    }
    assert calls[..|calls|] == calls;
    RecordingIsSilent(calls);
    FedIsRecords(calls);
    if NoBytes(calls) {
      KeyedRecords(calls);
    }
    return hash(b.buf), b.components;
  }

  // ----- Digest of a source path -------------------------------------------------

  /** A file with setuid, setgid or sticky bits inside a source directory. */
  datatype SpecialFile = SpecialFile(path: Bytes, bits: nat)

  /** What a source path holds: a file with its permission and special bits, a link, or a directory
      captured in Preserve mode with its files that carry special bits. */
  datatype Source =
    | SourceFile(mode: nat, content: Bytes)
    | SourceLink(target: Bytes)
    | SourceDirectory(entries: seq<Codec.Entry>, special: seq<SpecialFile>)

  /** Sources whose fields fit their widths, with NUL-free paths. */
  predicate WellFormed(s: Source) {
    match s
    case SourceFile(mode, _) => mode < 0x1000
    case SourceLink(_) => true
    case SourceDirectory(entries, special) =>
      && Codec.AllSized(entries)
      && forall i :: 0 <= i < |special| ==> 0 !in special[i].path && special[i].bits <= U32_MAX
  }

  function SpecialPairs(special: seq<SpecialFile>): (ps: seq<Pair>) {
    seq(|special|, i requires 0 <= i < |special| => Pair(special[i].path, ToLe(special[i].bits, 4)))
  }

  function FileMagic(): (m: Bytes) { Ascii("once.file.v1") + [0] }
  function LinkMagic(): (m: Bytes) { Ascii("once.symlink.input.v1") + [0] }
  function SpecialMagic(): (m: Bytes) { Ascii("once.directory.special-modes.v1") + [0] }

  /** The bytes whose hash is the digest of a source: `digest_source_path`. */
  function Preimage(hash: Bytes -> Digest, s: Source): (bytes: Bytes) {
    match s
    case SourceFile(mode, content) => FileMagic() + (ToLe(mode, 4) + content)
    case SourceLink(target) => LinkMagic() + target
    case SourceDirectory(entries, special) =>
      var blob := Codec.Encode(Codec.V2, entries);
      if special == [] then blob
      else SpecialMagic() + (hash(blob) + EncodePairs(SpecialPairs(special)))
  }

  datatype Kind = IsFile | IsLink | IsPlainDirectory | IsSpecialDirectory

  function KindOf(s: Source): (k: Kind) {
    match s
    case SourceFile(_, _) => IsFile
    case SourceLink(_) => IsLink
    case SourceDirectory(_, special) => if special == [] then IsPlainDirectory else IsSpecialDirectory
  }

  /** The kind of a source can be read off its preimage. */
  function KindByPrefix(bytes: Bytes): (k: Option<Kind>) {
    if |bytes| <= 15 then None
    else if bytes[5] == 'f' as int then Some(IsFile)
    else if bytes[5] == 's' as int then Some(IsLink)
    else if bytes[15] == 'v' as int then Some(IsPlainDirectory)
    else Some(IsSpecialDirectory)
  }

  lemma KindIsVisible(hash: Bytes -> Digest, s: Source)
    ensures KindByPrefix(Preimage(hash, s)) == Some(KindOf(s))
  {
    hide EncodePairs, Codec.EncodeEntries, ToLe;
    var bytes := Preimage(hash, s);
    match s
    case SourceFile(mode, content) =>
      assert bytes[5] == FileMagic()[5] == 'f' as int;
    case SourceLink(_) =>
      assert bytes[5] == LinkMagic()[5] == 's' as int;
    case SourceDirectory(entries, special) =>
      if special == [] {
        var m := Codec.Magic(Codec.V2);
        assert bytes[5] == m[5] == 'd' as int && bytes[15] == m[15] == 'v' as int;
      } else {
        var m := SpecialMagic();
        assert bytes[5] == m[5] == 'd' as int && bytes[15] == m[15] == 's' as int;
      }
  }

  lemma SpecialInjective(a: seq<SpecialFile>, b: seq<SpecialFile>)
    requires forall i :: 0 <= i < |a| ==> 0 !in a[i].path && a[i].bits <= U32_MAX
    requires forall i :: 0 <= i < |b| ==> 0 !in b[i].path && b[i].bits <= U32_MAX
    requires EncodePairs(SpecialPairs(a)) == EncodePairs(SpecialPairs(b))
    ensures a == b
  {
    var ps, qs := SpecialPairs(a), SpecialPairs(b);
    PairsInjective(ps, qs, 4);
    forall i | 0 <= i < |a| ensures a[i] == b[i] {
      assert ps[i] == Pair(a[i].path, ToLe(a[i].bits, 4)) && qs[i] == Pair(b[i].path, ToLe(b[i].bits, 4));
      FromToLe32(a[i].bits);
      FromToLe32(b[i].bits);
    }
  }

  function BlobOf(s: Source): (blob: Bytes) {
    if s.SourceDirectory? then Codec.Encode(Codec.V2, s.entries) else []
  }

  lemma FilesAgree(a: Source, b: Source, hash: Bytes -> Digest)
    requires WellFormed(a) && WellFormed(b) && a.SourceFile? && b.SourceFile?
    requires Preimage(hash, a) == Preimage(hash, b)
    ensures a == b
  {
    hide ToLe, Codec.Encode;
    TailsAgree(FileMagic(), ToLe(a.mode, 4) + a.content, FileMagic(), ToLe(b.mode, 4) + b.content);
    TailsAgree(ToLe(a.mode, 4), a.content, ToLe(b.mode, 4), b.content);
    FromToLe32(a.mode);
    FromToLe32(b.mode);
  }

  lemma SpecialsAgree(a: Source, b: Source, hash: Bytes -> Digest)
    requires WellFormed(a) && WellFormed(b) && KindOf(a).IsSpecialDirectory? && KindOf(b).IsSpecialDirectory?
    requires Preimage(hash, a) == Preimage(hash, b)
    ensures hash(BlobOf(a)) == hash(BlobOf(b)) && a.special == b.special
  {
    hide EncodePairs, Codec.Encode, Codec.AllSized;
    var x, y := EncodePairs(SpecialPairs(a.special)), EncodePairs(SpecialPairs(b.special));
    TailsAgree(SpecialMagic(), hash(BlobOf(a)) + x, SpecialMagic(), hash(BlobOf(b)) + y);
    TailsAgree(hash(BlobOf(a)), x, hash(BlobOf(b)), y);
    SpecialInjective(a.special, b.special);
  }

  /** Sources with one digest are the same: same kind, same content, same modes, same special bits, or
      the hash collides on a pair of byte strings the digest was taken of. */
  lemma SameDigestSameSource(hash: Bytes -> Digest, a: Source, b: Source)
    requires WellFormed(a) && WellFormed(b) && hash(Preimage(hash, a)) == hash(Preimage(hash, b))
    ensures || a == b
            || Collision(hash, Preimage(hash, a), Preimage(hash, b))
            || Collision(hash, BlobOf(a), BlobOf(b))
  {
    hide Codec.Encode, Codec.AllSized, EncodePairs, ToLe, KindByPrefix;
    if Preimage(hash, a) == Preimage(hash, b) {
      KindIsVisible(hash, a);
      KindIsVisible(hash, b);
      assert KindOf(a) == KindOf(b);
      match KindOf(a)
      case IsFile => FilesAgree(a, b, hash);
      case IsLink => TailsAgree(LinkMagic(), a.target, LinkMagic(), b.target);
      case IsPlainDirectory => Codec.WrittenInjective(a.entries, b.entries);
      case IsSpecialDirectory =>
        SpecialsAgree(a, b, hash);
        if BlobOf(a) == BlobOf(b) {
          Codec.WrittenInjective(a.entries, b.entries);
        }
    }
  }
}
