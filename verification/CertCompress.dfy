/** Compression of certificate chains, with zlib as a codec that loses nothing. */
module CertCompress {
  import opened Wrappers
  import opened StreamBytes
  import opened CertWire

  type Cert = seq<byte>

  datatype CommonSet = CommonSet(hash: nat, certs: seq<Cert>)

  /** Deflate and inflate with a preset dictionary; either may fail. */
  datatype Codec = Codec(deflate: (seq<byte>, seq<byte>) -> Option<seq<byte>>, inflate: (seq<byte>, seq<byte>) -> Option<seq<byte>>)

  /** What both ends know: zlib, the hash of a certificate, the common sets and the common substrings. */
  datatype Shared = Shared(codec: Codec, hash: Cert -> nat, sets: seq<CommonSet>, subStrings: seq<byte>)

  ghost predicate Lossless(codec: Codec) {
    forall dict, data :: codec.deflate(dict, data).Some? ==> codec.inflate(dict, codec.deflate(dict, data).value) == Some(data)
  }

  const MAX_UNCOMPRESSED := 128 * 1024
  const MAX_CERTS := 10000

  // ---------- What is sent ----------

  /** Certificates that are not compressed, the last one first. */
  function DictPart(entries: seq<Entry>, certs: seq<Cert>): seq<byte>
    requires |entries| == |certs|
  {
    if entries == [] then []
    else
      var n := |entries| - 1;
      (if entries[n] != Compressed then certs[n] else []) + DictPart(entries[..n], certs[..n])
  }

  function Dict(entries: seq<Entry>, certs: seq<Cert>, subStrings: seq<byte>): seq<byte>
    requires |entries| == |certs|
  {
    DictPart(entries, certs) + subStrings
  }

  function Piece(e: Entry, cert: Cert): seq<byte> {
    if e == Compressed then Le(|cert|, 4) + cert else []
  }

  /** Certificates that are compressed, each after its length. */
  function Payload(entries: seq<Entry>, certs: seq<Cert>): seq<byte>
    requires |entries| == |certs|
  {
    if entries == [] then [] else Piece(entries[0], certs[0]) + Payload(entries[1..], certs[1..])
  }

  /** The message for these entries. */
  function Assembled(sh: Shared, entries: seq<Entry>, certs: seq<Cert>): Option<seq<byte>>
    requires |entries| == |certs|
  {
    var payload := Payload(entries, certs);
    if payload == [] then Some(Wire(entries))
    else
      match sh.codec.deflate(Dict(entries, certs, sh.subStrings), payload)
      case None => None
      case Some(z) => Some(Wire(entries) + (Le(|payload|, 4) + z))
  }

  // ---------- What is understood ----------

  function FirstWithHash(cached: seq<Cert>, hash: Cert -> nat, x: nat): Cert {
    if cached == [] then [] else if hash(cached[0]) == x then cached[0] else FirstWithHash(cached[1..], hash, x)
  }

  function CommonCert(sets: seq<CommonSet>, setHash: nat, index: nat): Option<Cert> {
    if sets == [] then None
    else if sets[0].hash == setHash then
      if index < |sets[0].certs| then Some(sets[0].certs[index]) else None
    else CommonCert(sets[1..], setHash, index)
  }

  /** The certificate that an entry stands for, as far as the entry says. */
  function Resolved(e: Entry, cached: seq<Cert>, sh: Shared): Option<Cert> {
    match e
    case Compressed => Some([])
    case Cached(x) => Some(FirstWithHash(cached, sh.hash, x))
    case Common(s, i) => CommonCert(sh.sets, s, i)
  }

  function ResolvedAll(entries: seq<Entry>, cached: seq<Cert>, sh: Shared): (r: Option<seq<Cert>>)
    ensures r.Some? ==> |r.value| == |entries|
  {
    if entries == [] then Some([])
    else
      match Resolved(entries[0], cached, sh)
      case None => None
      case Some(cert) =>
        match ResolvedAll(entries[1..], cached, sh)
        case None => None
        case Some(more) => Some([cert] + more)
  }

  /** Takes the compressed certificates out of `data`, all of which has to be used. */
  function Filled(entries: seq<Entry>, certs: seq<Cert>, data: seq<byte>): Option<seq<Cert>>
    requires |entries| == |certs|
  {
    if entries == [] then if data == [] then Some([]) else None
    else if entries[0] != Compressed then Prepend(certs[0], Filled(entries[1..], certs[1..], data))
    else if |data| < 4 then None
    else
      var len := UnLe(data[..4]);
      if |data| - 4 < len then None
      else Prepend(data[4..4 + len], Filled(entries[1..], certs[1..], data[4 + len..]))
  }

  function Prepend(cert: Cert, more: Option<seq<Cert>>): Option<seq<Cert>> {
    match more
    case None => None
    case Some(certs) => Some([cert] + certs)
  }

  /** The data behind the entries. */
  function Inflated(sh: Shared, entries: seq<Entry>, certs: seq<Cert>, rest: seq<byte>): Option<seq<byte>>
    requires |entries| == |certs|
  {
    if rest == [] then Some([])
    else if |rest| < 4 || UnLe(rest[..4]) > MAX_UNCOMPRESSED then None
    else
      match sh.codec.inflate(Dict(entries, certs, sh.subStrings), rest[4..])
      case None => None
      case Some(data) => if |data| == UnLe(rest[..4]) then Some(data) else None
  }

  function Understood(sh: Shared, p: Parsed, cached: seq<Cert>): Option<seq<Cert>> {
    match ResolvedAll(p.entries, cached, sh)
    case None => None
    case Some(certs) =>
      match Inflated(sh, p.entries, certs, p.rest)
      case None => None
      case Some(data) => Filled(p.entries, certs, data)
  }

  // ---------- Round trip ----------

  /** `e` may stand for `cert`. */
  ghost predicate EntryFor(e: Entry, cert: Cert, sh: Shared) {
    match e
    case Compressed => true
    case Cached(x) => x == sh.hash(cert)
    case Common(s, i) => exists j | 0 <= j < |sh.sets| :: MatchesAt(sh.sets[j], s, i, cert)
  }

  ghost predicate MatchesAt(st: CommonSet, s: nat, i: nat, cert: Cert) {
    st.hash == s && i < |st.certs| && st.certs[i] == cert
  }

  ghost predicate EntriesFor(entries: seq<Entry>, certs: seq<Cert>, sh: Shared) {
    |entries| == |certs| && forall i | 0 <= i < |entries| :: EntryFor(entries[i], certs[i], sh)
  }

  /** Hashes and indices fit their fields, and no two sets have the same hash. */
  ghost predicate SharedOk(sh: Shared) {
    && Lossless(sh.codec)
    && (forall c :: sh.hash(c) < 0x1_0000_0000_0000_0000)
    && (forall j | 0 <= j < |sh.sets| :: sh.sets[j].hash < 0x1_0000_0000_0000_0000 && |sh.sets[j].certs| <= 0x1_0000_0000)
    && (forall j, k | 0 <= j < k < |sh.sets| :: sh.sets[j].hash != sh.sets[k].hash)
  }

  /** Certificates sent by hash are in the receiver's cache, and no other one there has the hash. */
  ghost predicate CacheHas(entries: seq<Entry>, certs: seq<Cert>, cached: seq<Cert>, sh: Shared)
    requires |entries| == |certs|
  {
    forall i | 0 <= i < |entries| && entries[i].Cached? ::
      certs[i] in cached && forall c | c in cached && sh.hash(c) == sh.hash(certs[i]) :: c == certs[i]
  }

  /** What the entries alone say: all but the compressed certificates. */
  function Known(entries: seq<Entry>, certs: seq<Cert>): (r: seq<Cert>)
    requires |entries| == |certs|
    ensures |r| == |entries|
  {
    if entries == [] then []
    else [if entries[0] == Compressed then [] else certs[0]] + Known(entries[1..], certs[1..])
  }

  lemma {:induction false} FirstIsIt(cached: seq<Cert>, hash: Cert -> nat, cert: Cert)
    requires cert in cached && forall c | c in cached && hash(c) == hash(cert) :: c == cert
    ensures FirstWithHash(cached, hash, hash(cert)) == cert
  {
    if hash(cached[0]) == hash(cert) {
      assert cached[0] in cached;
    } else {
      assert cached == [cached[0]] + cached[1..];
      FirstIsIt(cached[1..], hash, cert);
    }
  }

  lemma {:induction false} CommonIsIt(sets: seq<CommonSet>, s: nat, i: nat, cert: Cert, j: nat)
    requires j < |sets| && MatchesAt(sets[j], s, i, cert)
    requires forall a, b | 0 <= a < b < |sets| :: sets[a].hash != sets[b].hash
    ensures CommonCert(sets, s, i) == Some(cert)
  {
    if j > 0 {
      assert sets[0].hash != sets[j].hash;
      assert sets[j] == sets[1..][j - 1];
      CommonIsIt(sets[1..], s, i, cert, j - 1);
    }
  }

  lemma ResolvedIs(e: Entry, cert: Cert, cached: seq<Cert>, sh: Shared)
    requires EntryFor(e, cert, sh) && SharedOk(sh)
    requires e.Cached? ==> cert in cached && forall c | c in cached && sh.hash(c) == sh.hash(cert) :: c == cert
    ensures Resolved(e, cached, sh) == Some(if e == Compressed then [] else cert)
  {
    match e {
      case Compressed =>
      case Cached(_) => FirstIsIt(cached, sh.hash, cert);
      case Common(s, i) =>
        var j :| 0 <= j < |sh.sets| && MatchesAt(sh.sets[j], s, i, cert);
        CommonIsIt(sh.sets, s, i, cert, j);
    }
  }

  lemma {:induction false} ResolvedAllIs(entries: seq<Entry>, certs: seq<Cert>, cached: seq<Cert>, sh: Shared)
    requires EntriesFor(entries, certs, sh) && SharedOk(sh) && CacheHas(entries, certs, cached, sh)
    ensures ResolvedAll(entries, cached, sh) == Some(Known(entries, certs))
  {
    if entries != [] {
      ResolvedIs(entries[0], certs[0], cached, sh);
      ResolvedAllIs(entries[1..], certs[1..], cached, sh);
    }
  }

  lemma {:induction false} KnownAt(entries: seq<Entry>, certs: seq<Cert>, i: nat)
    requires |entries| == |certs| && i < |entries|
    ensures Known(entries, certs)[i] == if entries[i] == Compressed then [] else certs[i]
  {
    if i > 0 {
      KnownAt(entries[1..], certs[1..], i - 1);
    }
  }

  /** The dictionary depends only on the certificates that are not compressed. */
  lemma {:induction false} SameDict(entries: seq<Entry>, certs: seq<Cert>, certs': seq<Cert>)
    requires |entries| == |certs| == |certs'|
    requires forall i | 0 <= i < |entries| && entries[i] != Compressed :: certs[i] == certs'[i]
    ensures DictPart(entries, certs) == DictPart(entries, certs')
  {
    if entries != [] {
      var n := |entries| - 1;
      SameDict(entries[..n], certs[..n], certs'[..n]);
    }
  }

  /** So both ends build the same one. */
  lemma DictRebuilt(entries: seq<Entry>, certs: seq<Cert>, subStrings: seq<byte>)
    requires |entries| == |certs|
    ensures Dict(entries, Known(entries, certs), subStrings) == Dict(entries, certs, subStrings)
  {
    forall i | 0 <= i < |entries|
      ensures Known(entries, certs)[i] == if entries[i] == Compressed then [] else certs[i]
    {
      KnownAt(entries, certs, i);
    }
    SameDict(entries, certs, Known(entries, certs));
  }

  lemma {:induction false} FilledIs(entries: seq<Entry>, certs: seq<Cert>)
    requires |entries| == |certs| && |Payload(entries, certs)| < 0x1_0000_0000
    ensures Filled(entries, Known(entries, certs), Payload(entries, certs)) == Some(certs)
  {
    if entries != [] {
      var data, more := Payload(entries, certs), Payload(entries[1..], certs[1..]);
      FilledIs(entries[1..], certs[1..]);
      assert Known(entries, certs)[1..] == Known(entries[1..], certs[1..]);
      assert [certs[0]] + certs[1..] == certs;
      if entries[0] == Compressed {
        Powers();
        LeExact(|certs[0]|, 4);
        var len := |certs[0]|;
        assert data[..4] == Le(len, 4);
        assert data[4..4 + len] == certs[0];
        assert data[4 + len..] == more;
      } else {
        assert data == more;
      }
    }
  }

  lemma EntriesFit(entries: seq<Entry>, certs: seq<Cert>, sh: Shared)
    requires EntriesFor(entries, certs, sh) && SharedOk(sh)
    ensures forall i | 0 <= i < |entries| :: Fits(entries[i])
  {
  }

  /** What follows the entries in the message. */
  ghost predicate Follows(sh: Shared, dict: seq<byte>, payload: seq<byte>, rest: seq<byte>) {
    if payload == [] then rest == []
    else
      var z := sh.codec.deflate(dict, payload);
      z.Some? && rest == Le(|payload|, 4) + z.value
  }

  lemma AssembledIs(sh: Shared, entries: seq<Entry>, certs: seq<Cert>, message: seq<byte>) returns (rest: seq<byte>)
    requires |entries| == |certs| && Assembled(sh, entries, certs) == Some(message)
    ensures message == Wire(entries) + rest
    ensures Follows(sh, Dict(entries, certs, sh.subStrings), Payload(entries, certs), rest)
  {
    var wire, payload := Wire(entries), Payload(entries, certs);
    if payload == [] {
      rest := [];
      assert wire + rest == wire;
    } else {
      rest := Le(|payload|, 4) + sh.codec.deflate(Dict(entries, certs, sh.subStrings), payload).value;
    }
  }

  /** The size field can be read again. */
  lemma SizeRead(n: nat, size: seq<byte>, z: seq<byte>, rest: seq<byte>)
    requires n < 0x1_0000_0000 && size == Le(n, 4) && rest == size + z
    ensures |rest| >= 4 && UnLe(rest[..4]) == n && rest[4..] == z
  {
    Powers();
    LeExact(n, 4);
    assert rest[..4] == size;
  }

  lemma InflatedIs(sh: Shared, entries: seq<Entry>, known: seq<Cert>, dict: seq<byte>, payload: seq<byte>, rest: seq<byte>)
    requires |entries| == |known| && dict == Dict(entries, known, sh.subStrings)
    requires Lossless(sh.codec) && Follows(sh, dict, payload, rest) && |payload| < 0x1_0000_0000
    ensures Inflated(sh, entries, known, rest) == if |payload| <= MAX_UNCOMPRESSED then Some(payload) else None
  {
    if payload != [] {
      var n, z := |payload|, sh.codec.deflate(dict, payload).value;
      SizeRead(n, Le(n, 4), z, rest);
    }
  }

  lemma UnderstoodIs(sh: Shared, p: Parsed, certs: seq<Cert>, cached: seq<Cert>, payload: seq<byte>)
    requires SharedOk(sh) && EntriesFor(p.entries, certs, sh) && CacheHas(p.entries, certs, cached, sh)
    requires payload == Payload(p.entries, certs) && |payload| < 0x1_0000_0000
    requires Follows(sh, Dict(p.entries, certs, sh.subStrings), payload, p.rest)
    ensures Understood(sh, p, cached) == if |payload| <= MAX_UNCOMPRESSED then Some(certs) else None
  {
    var entries, rest, known := p.entries, p.rest, Known(p.entries, certs);
    var dict := Dict(entries, certs, sh.subStrings);
    ResolvedAllIs(entries, certs, cached, sh);
    DictRebuilt(entries, certs, sh.subStrings);
    InflatedIs(sh, entries, known, dict, payload, rest);
    FilledIs(entries, certs);
  }

  /**
   Round trip: what was sent is understood as the certificates it was made from, exactly
   when the compressed part is not over the limit.
   */
  lemma RoundTrip(sh: Shared, entries: seq<Entry>, certs: seq<Cert>, cached: seq<Cert>)
    requires SharedOk(sh) && EntriesFor(entries, certs, sh) && CacheHas(entries, certs, cached, sh)
    requires Assembled(sh, entries, certs).Some?
    requires |Payload(entries, certs)| < 0x1_0000_0000
    ensures var p := Parse(Assembled(sh, entries, certs).value);
            && p.Some? && p.value.entries == entries
            && Understood(sh, p.value, cached) ==
               if |Payload(entries, certs)| <= MAX_UNCOMPRESSED then Some(certs) else None
  {
    var message, payload := Assembled(sh, entries, certs).value, Payload(entries, certs);
    var rest := AssembledIs(sh, entries, certs, message);
    EntriesFit(entries, certs, sh);
    ParseWire(entries, rest);
    UnderstoodIs(sh, Parsed(entries, rest), certs, cached, payload);
  }
}
