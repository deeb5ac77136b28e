/** The stored form of a blob: raw bytes, or a compressed body behind a magic header. */
module BlobCodec {
  import opened Common
  import opened Encodings

  /** What inflating a body yields: bytes, then a clean end or an error. */
  datatype Inflated = Inflated(bytes: Bytes, clean: bool)

  /** The compressor, as any pair that undoes itself. */
  datatype Zstd = Zstd(compress: Bytes -> Bytes, inflate: Bytes -> Inflated) {
    ghost predicate Lawful() {
      forall raw :: inflate(compress(raw)) == Inflated(raw, true)
    }
  }

  const MAGIC_LEN: nat := 17
  const HEADER_LEN: nat := 25

  function Magic(): (m: Bytes)
    ensures |m| == MAGIC_LEN
  {
    Ascii("once.cas.zstd.v1") + [0]
  }

  function Wrapped(z: Zstd, raw: Bytes): (stored: Bytes) {
    Magic() + (ToLe(|raw|, 8) + z.compress(raw))
  }

  /** `encode_bytes`: wrapped when that is shorter, or when the raw bytes look wrapped already. */
  function Encode(z: Zstd, raw: Bytes): (r: Result<Bytes>) {
    var wrappedLen := HEADER_LEN + |z.compress(raw)|;
    if wrappedLen > U64_MAX then Err
    else if Magic() <= raw || wrappedLen < |raw| then
      if |raw| > U64_MAX then Err else Ok(Wrapped(z, raw))
    else Ok(raw)
  }

  /** Reading an inflater limited to `limit` bytes. */
  function ReadAtMost(i: Inflated, limit: nat): (r: Result<Bytes>) {
    if |i.bytes| >= limit then Ok(i.bytes[..limit])
    else if i.clean then Ok(i.bytes) else Err
  }

  /** `decode_bytes` */
  function Decode(z: Zstd, stored: Bytes): (r: Result<Bytes>) {
    if !(Magic() <= stored) then Ok(stored)
    else if |stored| < HEADER_LEN then Err
    else
      var rawLen := FromLe(stored[MAGIC_LEN..HEADER_LEN]);
      match ReadAtMost(z.inflate(stored[HEADER_LEN..]), SaturatingAdd(rawLen, 1))
      case Err => Err
      case Ok(bytes) => if |bytes| == rawLen then Ok(bytes) else Err
  }

  /** `raw_size_from_header` */
  function RawSizeFromHeader(header: Bytes): (size: Option<nat>) {
    if Magic() <= header && |header| >= HEADER_LEN then Some(FromLe(header[MAGIC_LEN..HEADER_LEN])) else None
  }

  /** `blob_size`: the size recorded in the header, or that of the stored file. */
  function BlobSize(stored: Bytes): (size: nat) {
    if |stored| < HEADER_LEN then |stored|
    else
      match RawSizeFromHeader(stored[..HEADER_LEN])
      case Some(n) => n
      case None => |stored|
  }

  lemma WrappedFields(z: Zstd, raw: Bytes)
    requires |raw| <= U64_MAX
    ensures var s := Wrapped(z, raw);
            && Magic() <= s && |s| >= HEADER_LEN
            && FromLe(s[MAGIC_LEN..HEADER_LEN]) == |raw| && s[HEADER_LEN..] == z.compress(raw)
  {
    hide Magic;
    FromToLe64(|raw|);
    var s, m, c := Wrapped(z, raw), Magic(), z.compress(raw);
    assert s[..MAGIC_LEN] == m;
    assert s[MAGIC_LEN..HEADER_LEN] == ToLe(|raw|, 8);
    assert s[HEADER_LEN..] == c;
  }

  /** Decoding the stored form returns the original bytes, magic-prefixed ones included. */
  lemma RoundTrip(z: Zstd, raw: Bytes)
    requires z.Lawful()
    ensures Encode(z, raw).Ok? ==> Decode(z, Encode(z, raw).value) == Ok(raw)
  {
    hide Magic;
    if Encode(z, raw).Ok? && (Magic() <= raw || HEADER_LEN + |z.compress(raw)| < |raw|) {
      WrappedFields(z, raw);
      assert z.inflate(z.compress(raw)) == Inflated(raw, true);
      assert raw[..|raw|] == raw;
    }
  }

  /** The size read from the stored file is the size of the original. */
  lemma SizeIsOriginal(z: Zstd, raw: Bytes)
    ensures Encode(z, raw).Ok? ==> BlobSize(Encode(z, raw).value) == |raw|
  {
    hide Magic;
    if Encode(z, raw).Ok? {
      var stored := Encode(z, raw).value;
      if Magic() <= raw || HEADER_LEN + |z.compress(raw)| < |raw| {
        WrappedFields(z, raw);
        assert stored[..HEADER_LEN][MAGIC_LEN..HEADER_LEN] == stored[MAGIC_LEN..HEADER_LEN];
        assert Magic() <= stored[..HEADER_LEN];
      } else if |stored| >= HEADER_LEN {
        assert Magic() <= stored[..HEADER_LEN] ==> Magic() <= stored;
      }
    }
  }

  /** Only magic-prefixed bytes are stored longer than they are. */
  lemma GrowsOnlyEscaped(z: Zstd, raw: Bytes)
    requires Encode(z, raw).Ok? && |Encode(z, raw).value| > |raw|
    ensures Magic() <= raw
  {
  }

  /** Encoding fails only for lengths beyond a u64, and stores the shorter form unless the bytes look wrapped. */
  lemma EncodeIff(z: Zstd, raw: Bytes)
    ensures Encode(z, raw).Ok? <==> |raw| <= U64_MAX && HEADER_LEN + |z.compress(raw)| <= U64_MAX
    ensures Encode(z, raw).Ok? ==>
              var wrapped := HEADER_LEN + |z.compress(raw)|;
              |Encode(z, raw).value| == if Magic() <= raw then wrapped else Min(|raw|, wrapped)
  {
    hide Magic;
  }

  /** The stored bytes a decoder accepts and what it makes of them: bytes without the magic are their own; behind
      a whole header the body inflates cleanly to the recorded size. A recorded size of the largest u64 also
      accepts a longer or unclean body, cut to that size. */
  lemma DecodeIff(z: Zstd, stored: Bytes, raw: Bytes)
    ensures Decode(z, stored) == Ok(raw) <==>
            if !(Magic() <= stored) then raw == stored
            else
              && |stored| >= HEADER_LEN && FromLe(stored[MAGIC_LEN..HEADER_LEN]) == |raw|
              && (|| z.inflate(stored[HEADER_LEN..]) == Inflated(raw, true)
                  || (|raw| == U64_MAX && raw <= z.inflate(stored[HEADER_LEN..]).bytes))
  {
    hide Magic;
    if Magic() <= stored && |stored| >= HEADER_LEN {
      var n, i := FromLe(stored[MAGIC_LEN..HEADER_LEN]), z.inflate(stored[HEADER_LEN..]);
      ToFromLe(stored[MAGIC_LEN..HEADER_LEN]);
      Widths();
      assert i.bytes[..|i.bytes|] == i.bytes;
      assert |raw| <= |i.bytes| ==> (raw <= i.bytes <==> i.bytes[..|raw|] == raw);
    }
  }

  /** What decodes has the size the store reports for it. */
  lemma DecodedSize(z: Zstd, stored: Bytes)
    requires Decode(z, stored).Ok?
    ensures |Decode(z, stored).value| == BlobSize(stored)
  {
    hide Magic;
    if |stored| >= HEADER_LEN {
      assert Magic() <= stored <==> Magic() <= stored[..HEADER_LEN] by {
        assert stored[..MAGIC_LEN] == stored[..HEADER_LEN][..MAGIC_LEN];
      }
      assert stored[..HEADER_LEN][MAGIC_LEN..HEADER_LEN] == stored[MAGIC_LEN..HEADER_LEN];
    }
  }

  // ----- Streamed decoding -------------------------------------------------------

  /** What reading a stored blob back with verification gives: `get_blob`. */
  function Verified(z: Zstd, hash: Bytes -> Digest, stored: Bytes, expected: Digest): (r: Result<Bytes>) {
    match Decode(z, stored)
    case Err => Err
    case Ok(bytes) => if hash(bytes) == expected then Ok(bytes) else Err
  }

  /** What `decode_open_file` writes. */
  function Streamed(z: Zstd, hash: Bytes -> Digest, stored: Bytes, expected: Digest): (r: Result<Bytes>) {
    var size := if |stored| >= HEADER_LEN then RawSizeFromHeader(stored[..HEADER_LEN]) else None;
    var copied := match size
                  case Some(n) => ReadAtMost(z.inflate(stored[HEADER_LEN..]), SaturatingAdd(n, 1))
                  case None => Ok(stored);
    match copied
    case Err => Err
    case Ok(bytes) =>
      if hash(bytes) != expected || (size.Some? && |bytes| != size.value) then Err else Ok(bytes)
  }

  /** A file cut inside its header that still hashes to what is expected. */
  predicate CutHeader(hash: Bytes -> Digest, stored: Bytes, expected: Digest) {
    Magic() <= stored && |stored| < HEADER_LEN && hash(stored) == expected
  }

  /** The streamed and the in-memory decoder agree exactly on everything but such a file, which only
      the streamed one accepts. */
  lemma StreamedAgreesIff(z: Zstd, hash: Bytes -> Digest, stored: Bytes, expected: Digest)
    ensures Streamed(z, hash, stored, expected) == Verified(z, hash, stored, expected)
            <==> !CutHeader(hash, stored, expected)
    ensures Verified(z, hash, stored, expected).Ok? ==>
              Streamed(z, hash, stored, expected) == Verified(z, hash, stored, expected)
  {
    hide Magic;
    if |stored| >= HEADER_LEN {
      var header := stored[..HEADER_LEN];
      assert Magic() <= stored <==> Magic() <= header by {
        assert stored[..MAGIC_LEN] == header[..MAGIC_LEN];
      }
      assert header[MAGIC_LEN..HEADER_LEN] == stored[MAGIC_LEN..HEADER_LEN];
    }
  }

  /** The shortest such file: the magic alone. */
  lemma MagicAlone(z: Zstd, hash: Bytes -> Digest)
    ensures Streamed(z, hash, Magic(), hash(Magic())) == Ok(Magic())
    ensures Verified(z, hash, Magic(), hash(Magic())) == Err
  {
  }

  /** No stored form is cut inside its header, so both decoders return the original bytes. */
  lemma StreamedRoundTrip(z: Zstd, hash: Bytes -> Digest, raw: Bytes)
    requires z.Lawful() && Encode(z, raw).Ok?
    ensures Streamed(z, hash, Encode(z, raw).value, hash(raw)) == Ok(raw)
    ensures Verified(z, hash, Encode(z, raw).value, hash(raw)) == Ok(raw)
  {
    RoundTrip(z, raw);
    StreamedAgreesIff(z, hash, Encode(z, raw).value, hash(raw));
  }

  /** The loop that fills the header buffer from reads of any length. */
  method ReadHeader(input: Bytes) returns (header: Bytes)
    ensures header == input[..Min(HEADER_LEN, |input|)]
  {
    header := [];
    while |header| < HEADER_LEN
      invariant |header| <= HEADER_LEN && |header| <= |input| && header == input[..|header|]
      decreases HEADER_LEN - |header|
    {
      var space := Min(HEADER_LEN - |header|, |input| - |header|);
      if space == 0 {
        break;
      }
      var read: nat :| 0 < read <= space;
      header := header + input[|header|..|header| + read];
    }
  }

  /** `decode_open_file`; `stop` is the cancellation flag seen before the result is published. */
  method DecodeOpenFile(z: Zstd, hash: Bytes -> Digest, input: Bytes, expected: Digest, stop: bool)
    returns (output: Result<Bytes>)
    ensures output == if stop then Err else Streamed(z, hash, input, expected)
  {
    var header := ReadHeader(input);
    var size := None;
    if |header| == HEADER_LEN {
      size := RawSizeFromHeader(header);
    }
    var copied := Ok(input);
    if size.Some? {
      copied := ReadAtMost(z.inflate(input[HEADER_LEN..]), SaturatingAdd(size.value, 1));
    }
    if stop || copied.Err? {
      return Err;
    }
    if hash(copied.value) != expected {
      return Err;
    }
    if size.Some? && |copied.value| != size.value {
      return Err;
    }
    output := copied;
  }
}
