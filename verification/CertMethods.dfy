/** The compressor and the decompressor as they run. */
module CertMethods {
  import opened Wrappers
  import opened StreamBytes
  import opened CertWire
  import opened CertCompress
  import opened CertLayout

  // ---------- Common certificates ----------

  /** Byte by byte, then by length. */
  function Compare(a: Cert, b: Cert): int {
    if a == [] && b == [] then 0
    else if a == [] then -1
    else if b == [] then 1
    else if a[0] != b[0] then a[0] as int - b[0] as int
    else Compare(a[1..], b[1..])
  }

  lemma {:induction false} CompareIsZero(a: Cert, b: Cert)
    ensures Compare(a, b) == 0 <==> a == b
  {
    if a != [] && b != [] && a[0] == b[0] {
      CompareIsZero(a[1..], b[1..]);
      assert a == [a[0]] + a[1..] && b == [b[0]] + b[1..];
    }
  }

  lemma {:induction false} CompareFlips(a: Cert, b: Cert)
    ensures Compare(a, b) < 0 <==> Compare(b, a) > 0
  {
    if a != [] && b != [] && a[0] == b[0] {
      CompareFlips(a[1..], b[1..]);
    }
  }

  lemma {:induction false} CompareChains(a: Cert, b: Cert, c: Cert)
    requires Compare(a, b) < 0 && Compare(b, c) < 0
    ensures Compare(a, c) < 0
  {
    if a != [] && a[0] == b[0] && b[0] == c[0] {
      CompareChains(a[1..], b[1..], c[1..]);
    }
  }

  /** In the order that the search needs. */
  ghost predicate InOrder(certs: seq<Cert>) {
    forall i, j | 0 <= i < j < |certs| :: Compare(certs[i], certs[j]) < 0
  }

  /** The search goes on in [min, max]: nothing outside is the certificate. */
  ghost predicate OnlyWithin(certs: seq<Cert>, cert: Cert, min: int, max: int) {
    forall i | 0 <= i < |certs| && certs[i] == cert :: min <= i <= max
  }

  /** One comparison rules out one side. */
  lemma OneSide(certs: seq<Cert>, cert: Cert, mid: nat, i: nat)
    requires InOrder(certs) && mid < |certs| && i < |certs| && certs[i] == cert
    ensures Compare(cert, certs[mid]) < 0 ==> i < mid
    ensures Compare(cert, certs[mid]) > 0 ==> i > mid
  {
    CompareIsZero(cert, certs[mid]);
    CompareFlips(cert, certs[mid]);
    if i < mid {
      assert Compare(certs[i], certs[mid]) < 0;
    } else if mid < i {
      assert Compare(certs[mid], certs[i]) < 0;
    }
  }

  /** Binary search; what is found is there, and in a set that is in order what is there is found. */
  method Search(certs: seq<Cert>, cert: Cert) returns (found: Option<nat>)
    requires certs != []
    ensures found.Some? ==> found.value < |certs| && certs[found.value] == cert
    ensures InOrder(certs) ==> (found.Some? <==> cert in certs)
  {
    var min, max := 0, |certs| - 1;
    while max >= min
      invariant 0 <= min && max < |certs|
      invariant InOrder(certs) ==> OnlyWithin(certs, cert, min, max)
      decreases max - min
    {
      var mid := min + (max - min) / 2;
      var n := Compare(cert, certs[mid]);
      if InOrder(certs) {
        forall i | 0 <= i < |certs| && certs[i] == cert
          ensures (n < 0 ==> i < mid) && (n > 0 ==> i > mid)
        {
          OneSide(certs, cert, mid, i);
        }
      }
      if n < 0 {
        if mid == 0 {
          break;
        }
        max := mid - 1;
      } else if n > 0 {
        min := mid + 1;
      } else {
        CompareIsZero(cert, certs[mid]);
        return Some(mid);
      }
    }
    found := None;
  }

  /** The eight-byte hash at position `i` of a list. */
  function HashAt(list: seq<byte>, i: nat): nat
    requires 8 * i + 8 <= |list|
  {
    UnLe(list[8 * i..8 * i + 8])
  }

  /** It is the eight-byte number that lies there. */
  lemma HashAtIs(list: seq<byte>, i: nat)
    requires 8 * i + 8 <= |list|
    ensures NumberAt(list, 8 * i, HashAt(list, i), 8)
  {
    var at, part := 8 * i, list[8 * i..8 * i + 8];
    UnLePrints(part);
    forall j | 0 <= j < 8
      ensures list[at + j] as nat == Digit(UnLe(part), j)
    {
      assert part[0 + j] == list[at + j];
    }
  }

  ghost predicate Lists(list: seq<byte>, hash: nat) {
    exists i | 0 <= i < |list| / 8 :: HashAt(list, i) == hash
  }

  ghost predicate SetsInOrder(sh: Shared) {
    forall j | 0 <= j < |sh.sets| :: InOrder(sh.sets[j].certs)
  }

  /** The certificate is in a set that the client has. */
  ghost predicate InCommon(cert: Cert, commonHashes: seq<byte>, sh: Shared) {
    |commonHashes| % 8 == 0 && exists j | 0 <= j < |sh.sets| :: Lists(commonHashes, sh.sets[j].hash) && cert in sh.sets[j].certs
  }

  /** Looks for the certificate in the sets that the client has. */
  method MatchCommonCert(cert: Cert, commonHashes: seq<byte>, sh: Shared) returns (e: Option<Entry>)
    ensures e.Some? ==> e.value.Common? && EntryFor(e.value, cert, sh) && Lists(commonHashes, e.value.setHash)
    ensures |commonHashes| % 8 != 0 ==> e == None
    ensures SetsInOrder(sh) ==> (e.Some? <==> InCommon(cert, commonHashes, sh))
  {
    if |commonHashes| % 8 != 0 {
      return None;
    }
    for i := 0 to |commonHashes| / 8
      invariant SetsInOrder(sh) ==>
                  forall k, j | 0 <= k < i && 0 <= j < |sh.sets| && sh.sets[j].hash == HashAt(commonHashes, k) :: cert !in sh.sets[j].certs
    {
      var hash := HashAt(commonHashes, i);
      for j := 0 to |sh.sets|
        invariant SetsInOrder(sh) ==> forall l | 0 <= l < j && sh.sets[l].hash == hash :: cert !in sh.sets[l].certs
      {
        if sh.sets[j].hash == hash && sh.sets[j].certs != [] {
          var found := Search(sh.sets[j].certs, cert);
          if found.Some? {
            assert MatchesAt(sh.sets[j], hash, found.value, cert);
            assert Lists(commonHashes, sh.sets[j].hash) && cert in sh.sets[j].certs;
            return Some(Common(hash, found.value));
          }
        }
      }
    }
    e := None;
  }

  // ---------- Compression ----------

  /** Whether the client says that it has a certificate with this hash. */
  method IsListed(list: seq<byte>, hash: nat) returns (yes: bool)
    requires |list| % 8 == 0
    ensures yes <==> Lists(list, hash)
  {
    var j := 0;
    while j < |list|
      invariant 0 <= j <= |list| && j % 8 == 0
      invariant forall i | 0 <= i < j / 8 :: HashAt(list, i) != hash
    {
      if UnLe(list[j..j + 8]) == hash {
        assert HashAt(list, j / 8) == hash;
        return true;
      }
      j := j + 8;
    }
    yes := false;
  }

  /**
   A certificate goes by hash exactly when the client lists its hash, and otherwise by its
   place in a common set exactly when the client has such a set.
   */
  ghost predicate Chosen(e: Entry, cert: Cert, commonHashes: seq<byte>, cachedHashes: seq<byte>, sh: Shared) {
    && EntryFor(e, cert, sh)
    && (e.Cached? <==> |cachedHashes| % 8 == 0 && Lists(cachedHashes, sh.hash(cert)))
    && (e.Common? ==> Lists(commonHashes, e.setHash))
    && (SetsInOrder(sh) ==> (e.Common? <==> !e.Cached? && InCommon(cert, commonHashes, sh)))
  }

  method GetCertsEntries(certs: seq<Cert>, commonHashes: seq<byte>, cachedHashes: seq<byte>, sh: Shared)
    returns (entries: seq<Entry>)
    ensures |entries| == |certs| && forall i | 0 <= i < |certs| :: Chosen(entries[i], certs[i], commonHashes, cachedHashes, sh)
  {
    var cachedValid := |cachedHashes| % 8 == 0 && |cachedHashes| > 0;
    entries := [];
    for i := 0 to |certs|
      invariant |entries| == i && forall k | 0 <= k < i :: Chosen(entries[k], certs[k], commonHashes, cachedHashes, sh)
    {
      var cached := false;
      if cachedValid {
        cached := IsListed(cachedHashes, sh.hash(certs[i]));
      }
      if cached {
        entries := entries + [Cached(sh.hash(certs[i]))];
      } else {
        var common := MatchCommonCert(certs[i], commonHashes, sh);
        entries := entries + [if common.Some? then common.value else Compressed];
      }
    }
  }

  method MakeZlibDict(entries: seq<Entry>, certs: seq<Cert>, subStrings: seq<byte>) returns (dict: seq<byte>)
    requires |entries| == |certs|
    ensures dict == Dict(entries, certs, subStrings) && IsDictionary(dict, entries, certs, subStrings)
  {
    var size := DictSize(entries, certs);
    size := size + |subStrings|;
    dict := DictCerts(entries, certs);
    dict := dict + subStrings;
    assert |dict| == size;
    DictLaid(entries, certs, subStrings);
  }

  /** Adds up the sizes, from the last certificate to the first. */
  method DictSize(entries: seq<Entry>, certs: seq<Cert>) returns (size: nat)
    requires |entries| == |certs|
    ensures size == |DictPart(entries, certs)|
  {
    assert entries[..|entries|] == entries && certs[..|certs|] == certs;
    ghost var part := DictPart(entries, certs);
    size := 0;
    var i := |entries|;
    while i > 0
      invariant 0 <= i <= |entries|
      invariant part == DictPart(entries[..i], certs[..i]) && size + |part| == |DictPart(entries, certs)|
    {
      i := i - 1;
      ghost var _, part' := DictStep(entries, certs, i, part);
      part := part';
      if entries[i] != Compressed {
        size := size + |certs[i]|;
      }
    }
  }

  /** Puts them together, from the last certificate to the first. */
  method DictCerts(entries: seq<Entry>, certs: seq<Cert>) returns (dict: seq<byte>)
    requires |entries| == |certs|
    ensures dict == DictPart(entries, certs)
  {
    assert entries[..|entries|] == entries && certs[..|certs|] == certs;
    ghost var whole, part := DictPart(entries, certs), DictPart(entries, certs);
    dict := [];
    var i := |entries|;
    while i > 0
      invariant 0 <= i <= |entries|
      invariant part == DictPart(entries[..i], certs[..i]) && dict + part == whole
    {
      i := i - 1;
      ghost var piece, part' := DictStep(entries, certs, i, part);
      Assoc(dict, piece, part');
      part := part';
      if entries[i] != Compressed {
        dict := dict + certs[i];
      } else {
        assert dict + piece == dict;
      }
    }
  }

  /** The certificate at `i` comes first in the dictionary of the first `i + 1`. */
  lemma DictStep(entries: seq<Entry>, certs: seq<Cert>, i: nat, part: seq<byte>) returns (piece: seq<byte>, part': seq<byte>)
    requires |entries| == |certs| && i < |entries| && part == DictPart(entries[..i + 1], certs[..i + 1])
    ensures part' == DictPart(entries[..i], certs[..i]) && part == piece + part'
    ensures piece == if entries[i] != Compressed then certs[i] else []
  {
    var e, c := entries[..i + 1], certs[..i + 1];
    assert e[..i] == entries[..i] && c[..i] == certs[..i];
    piece, part' := if entries[i] != Compressed then certs[i] else [], DictPart(entries[..i], certs[..i]);
  }

  method GetEntriesSize(entries: seq<Entry>) returns (size: nat)
    ensures size == |Wire(entries)|
  {
    size := 0;
    for i := 0 to |entries|
      invariant size + |Wire(entries[i..])| == |Wire(entries)|
    {
      assert entries[i..][1..] == entries[i + 1..];
      size := size + match entries[i] case Compressed => 1 case Cached(_) => 1 + 8 case Common(_, _) => 1 + 8 + 4;
    }
    size := size + 1;
  }

  method SerializeCertEntries(entries: seq<Entry>) returns (out: seq<byte>)
    ensures out == Wire(entries) && IsWire(out, entries)
  {
    WireLaid(entries);
    out := [];
    ghost var whole := Wire(entries);
    for i := 0 to |entries|
      invariant out + Wire(entries[i..]) == whole
    {
      var piece;
      match entries[i] {
        case Compressed => piece := [1];
        case Cached(hash) => piece := [2] + Le(hash, 8);
        case Common(setHash, index) => piece := [3] + Le(setHash, 8) + Le(index, 4);
      }
      ghost var rest := Wire(entries[i + 1..]);
      assert entries[i..][1..] == entries[i + 1..];
      assert Wire(entries[i..]) == piece + rest;
      Assoc(out, piece, rest);
      out := out + piece;
    }
    out := out + [0];
  }

  method MakePayload(entries: seq<Entry>, certs: seq<Cert>) returns (data: seq<byte>)
    requires |entries| == |certs|
    ensures data == Payload(entries, certs) && IsData(data, entries, certs)
  {
    data := [];
    ghost var whole := Payload(entries, certs);
    for i := 0 to |entries|
      invariant data + Payload(entries[i..], certs[i..]) == whole
    {
      var piece := [];
      if entries[i] == Compressed {
        piece := Le(|certs[i]|, 4) + certs[i];
      }
      ghost var rest := Payload(entries[i + 1..], certs[i + 1..]);
      assert entries[i..][1..] == entries[i + 1..] && certs[i..][1..] == certs[i + 1..];
      assert Payload(entries[i..], certs[i..]) == piece + rest;
      Assoc(data, piece, rest);
      data := data + piece;
    }
    DataLaid(entries, certs, whole);
  }

  /** The message for a chain, unless deflate fails. */
  method CompressCerts(certs: seq<Cert>, commonHashes: seq<byte>, cachedHashes: seq<byte>, sh: Shared)
    returns (out: Option<seq<byte>>, entries: seq<Entry>)
    ensures |entries| == |certs| && forall i | 0 <= i < |certs| :: Chosen(entries[i], certs[i], commonHashes, cachedHashes, sh)
    ensures out == Assembled(sh, entries, certs) && (out.Some? ==> IsMessage(sh, out.value, entries, certs))
  {
    entries := GetCertsEntries(certs, commonHashes, cachedHashes, sh);
    var payload := MakePayload(entries, certs);
    var size := GetEntriesSize(entries);
    var wire := SerializeCertEntries(entries);
    assert |wire| == size;
    if |payload| == 0 {
      MessageLaid(sh, entries, certs, wire);
      return Some(wire), entries;
    }
    var dict := MakeZlibDict(entries, certs, sh.subStrings);
    var z := sh.codec.deflate(dict, payload);
    out := if z.Some? then Some(wire + (Le(|payload|, 4) + z.value)) else None;
    if out.Some? {
      MessageLaid(sh, entries, certs, out.value);
    }
  }

  // ---------- Decompression ----------

  /** Number of entries, or -1 for a message that breaks off or has an unknown entry. */
  method GetCertsCount(buf: seq<byte>) returns (count: int)
    ensures count == if Parse(buf).Some? then |Parse(buf).value.entries| else -1
  {
    var i := 0;
    count := 0;
    while true
      invariant 0 <= i <= |buf| && count >= 0
      invariant Parse(buf).Some? <==> Parse(buf[i..]).Some?
      invariant Parse(buf).Some? ==> |Parse(buf).value.entries| == count + |Parse(buf[i..]).value.entries|
      decreases |buf| - i
    {
      if i >= |buf| {
        return -1;
      }
      ghost var rest := buf[i..];
      var typeByte := buf[i];
      i := i + 1;
      if typeByte == 0 {
        return;
      }
      count := count + 1;
      if typeByte == 1 {
        assert rest[1..] == buf[i..];
      } else if typeByte == 2 {
        if |buf| - i < 8 {
          return -1;
        }
        i := i + 8;
        assert rest[9..] == buf[i..];
      } else if typeByte == 3 {
        if |buf| - i < 12 {
          return -1;
        }
        i := i + 12;
        assert rest[13..] == buf[i..];
      } else {
        return -1;
      }
    }
  }

  /** The first cached certificate with this hash, or no bytes. */
  method FindCached(cached: seq<Cert>, hash: nat, sh: Shared) returns (cert: Cert)
    ensures cert == FirstWithHash(cached, sh.hash, hash)
  {
    for i := 0 to |cached|
      invariant FirstWithHash(cached, sh.hash, hash) == FirstWithHash(cached[i..], sh.hash, hash)
    {
      if sh.hash(cached[i]) == hash {
        return cached[i];
      }
      assert cached[i..][1..] == cached[i + 1..];
    }
    cert := [];
  }

  /** One entry. */
  method ResolveEntry(e: Entry, cached: seq<Cert>, sh: Shared) returns (cert: Option<Cert>)
    ensures cert == Resolved(e, cached, sh)
  {
    match e {
      case Compressed => cert := Some([]);
      case Cached(hash) =>
        var c := FindCached(cached, hash, sh);
        cert := Some(c);
      case Common(setHash, index) => cert := CommonCert(sh.sets, setHash, index);
    }
  }

  function Joined(x: Option<seq<Cert>>, y: Option<seq<Cert>>): Option<seq<Cert>> {
    if x.Some? && y.Some? then Some(x.value + y.value) else None
  }

  lemma {:induction false} ResolvedSplit(a: seq<Entry>, b: seq<Entry>, cached: seq<Cert>, sh: Shared)
    ensures ResolvedAll(a + b, cached, sh) == Joined(ResolvedAll(a, cached, sh), ResolvedAll(b, cached, sh))
  {
    var y := ResolvedAll(b, cached, sh);
    if a == [] {
      assert a + b == b;
      assert y.Some? ==> [] + y.value == y.value;
    } else {
      assert (a + b)[1..] == a[1..] + b;
      ResolvedSplit(a[1..], b, cached, sh);
      var c, x := Resolved(a[0], cached, sh), ResolvedAll(a[1..], cached, sh);
      if c.Some? && x.Some? && y.Some? {
        assert ([c.value] + x.value) + y.value == [c.value] + (x.value + y.value);
      }
    }
  }

  /** One more entry is resolved, or all fail. */
  lemma ResolveNext(before: seq<Entry>, certs: seq<Cert>, e: Entry, cert: Option<Cert>, more: seq<Entry>,
                    after: seq<Entry>, all: seq<Entry>, cached: seq<Cert>, sh: Shared)
    requires ResolvedAll(before, cached, sh) == Some(certs) && cert == Resolved(e, cached, sh)
    requires more == before + [e] && all == more + after
    ensures if cert.Some? then ResolvedAll(more, cached, sh) == Some(certs + [cert.value])
            else ResolvedAll(all, cached, sh) == None
  {
    var one := [e];
    assert one[1..] == [];
    assert ResolvedAll([], cached, sh) == Some([]);
    assert cert.Some? ==> [cert.value] + [] == [cert.value];
    assert ResolvedAll(one, cached, sh) == if cert.Some? then Some([cert.value]) else None;
    ResolvedSplit(before, one, cached, sh);
    ResolvedSplit(more, after, cached, sh);
  }

  /** The entries read so far and those to come make up all. */
  lemma NextEntry(rest: seq<byte>, e: Entry, tail: seq<byte>, before: seq<Entry>, more: seq<Entry>, all: Parsed)
    requires rest != [] && rest[0] != 0 && First(rest) == Some(e) && Length(e) <= |rest| && tail == rest[Length(e)..]
    requires Parse(rest).Some? && all == Parsed(before + Parse(rest).value.entries, Parse(rest).value.rest)
    requires more == before + [e]
    ensures Parse(tail).Some? && all == Parsed(more + Parse(tail).value.entries, Parse(tail).value.rest)
  {
    assert Parse(tail).Some?;
    var p := Parse(tail).value;
    assert Parse(rest) == Some(Parsed([e] + p.entries, p.rest));
    Rejoin(before, e, p.entries, more);
  }

  lemma Rejoin(before: seq<Entry>, e: Entry, after: seq<Entry>, more: seq<Entry>)
    requires more == before + [e]
    ensures before + ([e] + after) == more + after
  {
  }

  /**
   Reads the entries without looking at the end of the buffer: safe in a message that
   has been counted, with room for that many certificates.
   */
  method ParseEntries(buf: seq<byte>, cached: seq<Cert>, sh: Shared, room: nat)
    returns (ok: bool, next: nat, entries: seq<Entry>, certs: seq<Cert>)
    requires Parse(buf).Some? && |Parse(buf).value.entries| <= room
    ensures ok <==> ResolvedAll(Parse(buf).value.entries, cached, sh).Some?
    ensures ok ==>
              && entries == Parse(buf).value.entries && certs == ResolvedAll(entries, cached, sh).value
              && next <= |buf| && buf[next..] == Parse(buf).value.rest
  {
    ghost var all := Parse(buf).value;
    next, entries, certs := 0, [], [];
    assert buf[0..] == buf && [] + all.entries == all.entries;
    var i := 0;
    while true
      invariant 0 <= i <= |buf| && Parse(buf[i..]).Some?
      invariant all == Parsed(entries + Parse(buf[i..]).value.entries, Parse(buf[i..]).value.rest)
      invariant ResolvedAll(entries, cached, sh) == Some(certs)
      decreases |buf| - i
    {
      ghost var rest := buf[i..];
      if buf[i] == 0 {
        next := i + 1;
        assert rest[1..] == buf[next..];
        assert entries + [] == entries;
        return true, next, entries, certs;
      }
      assert |entries| < room;
      var e := ReadEntry(buf, i);
      var cert := ResolveEntry(e, cached, sh);
      ghost var before := entries;
      entries := entries + [e];
      i := i + Length(e);
      assert rest[Length(e)..] == buf[i..];
      NextEntry(rest, e, buf[i..], before, entries, all);
      ResolveNext(before, certs, e, cert, entries, Parse(buf[i..]).value.entries, all.entries, cached, sh);
      if cert.None? {
        return false, 0, entries, certs;
      }
      certs := certs + [cert.value];
    }
  }

  /** The entry at `i` of a message that has been counted. */
  method ReadEntry(buf: seq<byte>, i: nat) returns (e: Entry)
    requires i < |buf| && buf[i] != 0 && First(buf[i..]).Some?
    ensures Some(e) == First(buf[i..]) && i + Length(e) <= |buf|
  {
    ghost var rest := buf[i..];
    if buf[i] == 1 {
      e := Compressed;
    } else if buf[i] == 2 {
      assert rest[1..9] == buf[i + 1..i + 9];
      e := Cached(UnLe(buf[i + 1..i + 9]));
    } else {
      assert rest[1..9] == buf[i + 1..i + 9] && rest[9..13] == buf[i + 9..i + 13];
      e := Common(UnLe(buf[i + 1..i + 9]), UnLe(buf[i + 9..i + 13]));
    }
  }

  /** Takes the compressed certificates out of the data. */
  method FillCerts(entries: seq<Entry>, known: seq<Cert>, data: seq<byte>) returns (certs: Option<seq<Cert>>)
    requires |entries| == |known|
    ensures certs == Filled(entries, known, data)
  {
    var out, rest := [], data;
    ghost var whole := Filled(entries, known, data);
    assert entries[0..] == entries && known[0..] == known;
    assert whole.Some? ==> [] + whole.value == whole.value;
    for i := 0 to |entries|
      invariant |out| == i && whole == AppendTo(out, Filled(entries[i..], known[i..], rest))
    {
      assert entries[i..][1..] == entries[i + 1..] && known[i..][1..] == known[i + 1..];
      var cert := known[i];
      if entries[i] == Compressed {
        if |rest| < 4 {
          return None;
        }
        var len := UnLe(rest[..4]);
        if |rest| - 4 < len {
          return None;
        }
        cert := rest[4..4 + len];
        rest := rest[4 + len..];
      }
      AppendPrepend(out, cert, Filled(entries[i + 1..], known[i + 1..], rest));
      out := out + [cert];
    }
    assert out + [] == out;
    certs := if rest == [] then Some(out) else None;
  }

  ghost function AppendTo(out: seq<Cert>, more: Option<seq<Cert>>): Option<seq<Cert>> {
    match more
    case None => None
    case Some(certs) => Some(out + certs)
  }

  lemma AppendPrepend(out: seq<Cert>, cert: Cert, more: Option<seq<Cert>>)
    ensures AppendTo(out, Prepend(cert, more)) == AppendTo(out + [cert], more)
  {
    if more.Some? {
      assert out + ([cert] + more.value) == (out + [cert]) + more.value;
    }
  }

  /** Undoes the compression of a message that has been counted. */
  method DecompressCerts(buf: seq<byte>, cached: seq<Cert>, sh: Shared, count: nat) returns (certs: Option<seq<Cert>>)
    requires Parse(buf).Some? && count == |Parse(buf).value.entries|
    ensures certs == if count == 0 || count > MAX_CERTS then None else Understood(sh, Parse(buf).value, cached)
  {
    if count == 0 || count > MAX_CERTS {
      return None;
    }
    var ok, next, entries, known := ParseEntries(buf, cached, sh, count);
    if !ok {
      return None;
    }
    var data := [];
    var rest := buf[next..];
    if rest != [] {
      if |rest| < 4 {
        return None;
      }
      var size := UnLe(rest[..4]);
      if size > MAX_UNCOMPRESSED {
        return None;
      }
      var dict := MakeZlibDict(entries, known, sh.subStrings);
      var inflated := sh.codec.inflate(dict, rest[4..]);
      if inflated.None? || |inflated.value| != size {
        return None;
      }
      data := inflated.value;
    }
    certs := FillCerts(entries, known, data);
  }

  /**
   A chain that is compressed, counted and decompressed comes out as it was, exactly
   when it has a certificate, is not too long, and its compressed part is not too large.
   */
  method SendAndReceive(certs: seq<Cert>, commonHashes: seq<byte>, cachedHashes: seq<byte>, cached: seq<Cert>, sh: Shared)
    returns (sent: Option<seq<byte>>, count: int, received: Option<seq<Cert>>, entries: seq<Entry>)
    requires SharedOk(sh)
    requires forall c | c in certs && Lists(cachedHashes, sh.hash(c)) ::
               c in cached && forall d | d in cached && sh.hash(d) == sh.hash(c) :: d == c
    ensures |entries| == |certs| && forall i | 0 <= i < |certs| :: Chosen(entries[i], certs[i], commonHashes, cachedHashes, sh)
    ensures sent == Assembled(sh, entries, certs)
    ensures sent.Some? && |Payload(entries, certs)| < 0x1_0000_0000 ==>
              && count == |certs|
              && received ==
                 if 0 < |certs| <= MAX_CERTS && |Payload(entries, certs)| <= MAX_UNCOMPRESSED then Some(certs) else None
  {
    sent, entries := CompressCerts(certs, commonHashes, cachedHashes, sh);
    count, received := -1, None;
    if sent.Some? {
      assert EntriesFor(entries, certs, sh) && CacheHas(entries, certs, cached, sh);
      if |Payload(entries, certs)| < 0x1_0000_0000 {
        RoundTrip(sh, entries, certs, cached);
      }
      count := GetCertsCount(sent.value);
      if count >= 0 {
        received := DecompressCerts(sent.value, cached, sh, count);
      }
    }
  }
}
