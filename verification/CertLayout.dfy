/** Where everything lies in a compressed certificate chain, said without the functions that print it. */
module CertLayout {
  import opened Wrappers
  import opened StreamBytes
  import opened CertWire
  import opened CertCompress

  /** `part` lies in `b` at `at`. */
  ghost predicate LiesAt(b: seq<byte>, at: nat, part: seq<byte>) {
    at + |part| <= |b| && forall k | 0 <= k < |part| :: b[at + k] == part[k]
  }

  /** Digit `k` of `n` to the base 256. */
  ghost function Digit(n: nat, k: nat): nat {
    if k == 0 then n % 256 else Digit(n / 256, k - 1)
  }

  /** The low `k` bytes of `n` lie in `b` at `at`, the low one first. */
  ghost predicate NumberAt(b: seq<byte>, at: nat, n: nat, k: nat) {
    at + k <= |b| && forall j | 0 <= j < k :: b[at + j] as nat == Digit(n, j)
  }

  lemma {:induction false} LePrints(n: nat, k: nat)
    ensures NumberAt(Le(n, k), 0, n, k)
  {
    if k > 0 {
      var more := Le(n / 256, k - 1);
      LePrints(n / 256, k - 1);
      forall j | 0 <= j < k
        ensures Le(n, k)[j] as nat == Digit(n, j)
      {
        if j > 0 {
          assert Le(n, k)[j] == more[j - 1];
        }
      }
    }
  }

  lemma NumberLies(b: seq<byte>, at: nat, n: nat, k: nat)
    requires LiesAt(b, at, Le(n, k))
    ensures NumberAt(b, at, n, k)
  {
    LePrints(n, k);
    forall j | 0 <= j < k
      ensures b[at + j] as nat == Digit(n, j)
    {
      assert Le(n, k)[0 + j] as nat == Digit(n, j);
    }
  }

  /** Parsed numbers have the bytes as their digits. */
  lemma {:induction false} UnLePrints(b: seq<byte>)
    ensures NumberAt(b, 0, UnLe(b), |b|)
  {
    if b != [] {
      var more, n := b[1..], UnLe(b);
      UnLePrints(more);
      assert n % 256 == b[0] as nat && n / 256 == UnLe(more);
      forall j | 0 <= j < |b|
        ensures b[j] as nat == Digit(n, j)
      {
        if j > 0 {
          assert more[0 + (j - 1)] as nat == Digit(UnLe(more), j - 1);
        }
      }
    }
  }

  lemma LiesDeeper(b: seq<byte>, at: nat, part: seq<byte>, off: nat, piece: seq<byte>)
    requires LiesAt(b, at, part) && LiesAt(part, off, piece)
    ensures LiesAt(b, at + off, piece)
  {
    forall k | 0 <= k < |piece|
      ensures b[at + off + k] == piece[k]
    {
      assert b[at + (off + k)] == part[off + k];
    }
  }

  lemma BothLie(b: seq<byte>, at: nat, part: seq<byte>, rest: seq<byte>, all: seq<byte>, next: nat)
    requires LiesAt(b, at, all) && all == part + rest && next == at + |part|
    ensures LiesAt(b, at, part) && LiesAt(b, next, rest)
  {
    assert LiesAt(all, 0, part) && LiesAt(all, |part|, rest);
    LiesDeeper(b, at, all, 0, part);
    LiesDeeper(b, at, all, |part|, rest);
  }

  // ---------- The entries ----------

  /** How many bytes an entry takes. */
  ghost function Width(e: Entry): nat {
    match e
    case Compressed => 1
    case Cached(_) => 1 + 8
    case Common(_, _) => 1 + 8 + 4
  }

  /** Where entry `i` starts. */
  ghost function EntryStart(entries: seq<Entry>, i: nat): nat
    requires i <= |entries|
  {
    if i == 0 then 0 else EntryStart(entries, i - 1) + Width(entries[i - 1])
  }

  ghost predicate EntryAt(b: seq<byte>, at: nat, e: Entry) {
    match e
    case Compressed => at < |b| && b[at] == 1
    case Cached(hash) => at < |b| && b[at] == 2 && NumberAt(b, at + 1, hash, 8)
    case Common(setHash, index) => at < |b| && b[at] == 3 && NumberAt(b, at + 1, setHash, 8) && NumberAt(b, at + 9, index, 4)
  }

  /** The entries one after the other, and a zero. */
  ghost predicate IsWire(b: seq<byte>, entries: seq<Entry>) {
    && |b| == EntryStart(entries, |entries|) + 1 && b[|b| - 1] == 0
    && forall i | 0 <= i < |entries| :: EntryAt(b, EntryStart(entries, i), entries[i])
  }

  lemma EntryLies(b: seq<byte>, at: nat, e: Entry)
    requires LiesAt(b, at, EntryBytes(e))
    ensures EntryAt(b, at, e) && |EntryBytes(e)| == Width(e)
  {
    var part := EntryBytes(e);
    assert b[at + 0] == part[0];
    match e {
      case Compressed =>
      case Cached(hash) =>
        assert LiesAt(part, 1, Le(hash, 8));
        LiesDeeper(b, at, part, 1, Le(hash, 8));
        NumberLies(b, at + 1, hash, 8);
      case Common(setHash, index) =>
        assert LiesAt(part, 1, Le(setHash, 8)) && LiesAt(part, 9, Le(index, 4));
        LiesDeeper(b, at, part, 1, Le(setHash, 8));
        LiesDeeper(b, at, part, 9, Le(index, 4));
        NumberLies(b, at + 1, setHash, 8);
        NumberLies(b, at + 9, index, 4);
    }
  }

  /** The bytes of the entries from `i` on lie where entry `i` starts. */
  lemma {:induction false} WireFrom(entries: seq<Entry>, i: nat)
    requires i <= |entries|
    ensures LiesAt(Wire(entries), EntryStart(entries, i), Wire(entries[i..]))
    ensures EntryStart(entries, i) + |Wire(entries[i..])| == |Wire(entries)|
  {
    if i == 0 {
      assert entries[0..] == entries;
    } else {
      WireFrom(entries, i - 1);
      var from, at := entries[i - 1..], EntryStart(entries, i - 1);
      var part, rest := EntryBytes(entries[i - 1]), Wire(entries[i..]);
      assert from[1..] == entries[i..];
      BothLie(Wire(entries), at, part, rest, Wire(from), at + |part|);
      EntryLies(Wire(entries), at, entries[i - 1]);
    }
  }

  /** What is printed is laid out so. */
  lemma WireLaid(entries: seq<Entry>)
    ensures IsWire(Wire(entries), entries)
  {
    var b, n := Wire(entries), |entries|;
    forall i | 0 <= i < n
      ensures EntryAt(b, EntryStart(entries, i), entries[i])
    {
      WireFrom(entries, i);
      var from, at := entries[i..], EntryStart(entries, i);
      var part, rest := EntryBytes(from[0]), Wire(from[1..]);
      BothLie(b, at, part, rest, Wire(from), at + |part|);
      EntryLies(b, at, entries[i]);
    }
    WireFrom(entries, n);
    assert entries[n..] == [];
    assert b[EntryStart(entries, n) + 0] == Wire([])[0];
  }

  // ---------- The dictionary ----------

  /** Sizes of the certificates from `i` on that are not compressed. */
  ghost function SizeFrom(entries: seq<Entry>, certs: seq<Cert>, i: nat): nat
    requires i <= |entries| == |certs|
    decreases |entries| - i
  {
    if i == |entries| then 0
    else (if entries[i] != Compressed then |certs[i]| else 0) + SizeFrom(entries, certs, i + 1)
  }

  /**
   The certificates that are not compressed, each in front of those before it in the chain, and
   the common substrings at the end.
   */
  ghost predicate IsDictionary(d: seq<byte>, entries: seq<Entry>, certs: seq<Cert>, subStrings: seq<byte>)
    requires |entries| == |certs|
  {
    var n := SizeFrom(entries, certs, 0);
    && |d| == n + |subStrings| && LiesAt(d, n, subStrings)
    && forall i | 0 <= i < |entries| && entries[i] != Compressed :: LiesAt(d, SizeFrom(entries, certs, i + 1), certs[i])
  }

  lemma DictPartStep(entries: seq<Entry>, certs: seq<Cert>, n: nat)
    requires n < |entries| == |certs|
    ensures DictPart(entries[..n + 1], certs[..n + 1])
         == (if entries[n] != Compressed then certs[n] else []) + DictPart(entries[..n], certs[..n])
  {
    var e, c := entries[..n + 1], certs[..n + 1];
    assert e[..n] == entries[..n] && c[..n] == certs[..n];
  }

  /** The first `n` certificates lie behind the others. */
  lemma {:induction false} DictPartFrom(entries: seq<Entry>, certs: seq<Cert>, n: nat, all: seq<byte>, at: nat, part: seq<byte>)
    requires n <= |entries| == |certs| && all == DictPart(entries, certs)
    requires at == SizeFrom(entries, certs, n) && part == DictPart(entries[..n], certs[..n])
    ensures LiesAt(all, at, part) && at + |part| == |all|
    decreases |entries| - n
  {
    if n == |entries| {
      assert entries[..n] == entries && certs[..n] == certs;
    } else {
      var at', part' := SizeFrom(entries, certs, n + 1), DictPart(entries[..n + 1], certs[..n + 1]);
      var piece := if entries[n] != Compressed then certs[n] else [];
      DictPartFrom(entries, certs, n + 1, all, at', part');
      DictPartStep(entries, certs, n);
      BothLie(all, at', piece, part, part', at);
    }
  }

  lemma PieceLies(entries: seq<Entry>, certs: seq<Cert>, i: nat, all: seq<byte>)
    requires i < |entries| == |certs| && entries[i] != Compressed && all == DictPart(entries, certs)
    ensures LiesAt(all, SizeFrom(entries, certs, i + 1), certs[i])
  {
    var at, part, rest := SizeFrom(entries, certs, i + 1), DictPart(entries[..i + 1], certs[..i + 1]), DictPart(entries[..i], certs[..i]);
    DictPartFrom(entries, certs, i + 1, all, at, part);
    DictPartStep(entries, certs, i);
    BothLie(all, at, certs[i], rest, part, at + |certs[i]|);
  }

  /** The dictionary that both ends build is laid out so. */
  lemma DictLaid(entries: seq<Entry>, certs: seq<Cert>, subStrings: seq<byte>)
    requires |entries| == |certs|
    ensures IsDictionary(Dict(entries, certs, subStrings), entries, certs, subStrings)
  {
    var all, d := DictPart(entries, certs), Dict(entries, certs, subStrings);
    assert entries[..0] == [] && certs[..0] == [];
    DictPartFrom(entries, certs, 0, all, SizeFrom(entries, certs, 0), []);
    assert LiesAt(d, |all|, subStrings) && LiesAt(d, 0, all);
    forall i | 0 <= i < |entries| && entries[i] != Compressed
      ensures LiesAt(d, SizeFrom(entries, certs, i + 1), certs[i])
    {
      PieceLies(entries, certs, i, all);
      LiesDeeper(d, 0, all, SizeFrom(entries, certs, i + 1), certs[i]);
    }
  }

  /** Which certificate a position before the substrings belongs to. */
  lemma {:induction false} DictPosition(entries: seq<Entry>, certs: seq<Cert>, n: nat, p: nat) returns (i: nat)
    requires n <= |entries| == |certs| && p < SizeFrom(entries, certs, n)
    ensures n <= i < |entries| && entries[i] != Compressed
    ensures SizeFrom(entries, certs, i + 1) <= p < SizeFrom(entries, certs, i + 1) + |certs[i]|
    decreases |entries| - n
  {
    if p < SizeFrom(entries, certs, n + 1) {
      i := DictPosition(entries, certs, n + 1, p);
    } else {
      i := n;
    }
  }

  lemma SamePart(d: seq<byte>, d': seq<byte>, at: nat, part: seq<byte>, p: nat)
    requires LiesAt(d, at, part) && LiesAt(d', at, part) && at <= p < at + |part|
    ensures d[p] == d'[p]
  {
    var k := p - at;
    assert d[at + k] == part[k] && d'[at + k] == part[k];
  }

  /** Nothing else is laid out so. */
  lemma DictExactly(d: seq<byte>, entries: seq<Entry>, certs: seq<Cert>, subStrings: seq<byte>)
    requires |entries| == |certs|
    ensures IsDictionary(d, entries, certs, subStrings) <==> d == Dict(entries, certs, subStrings)
  {
    DictLaid(entries, certs, subStrings);
    if IsDictionary(d, entries, certs, subStrings) {
      var d', n := Dict(entries, certs, subStrings), SizeFrom(entries, certs, 0);
      forall p | 0 <= p < |d|
        ensures d[p] == d'[p]
      {
        if p < n {
          var i := DictPosition(entries, certs, 0, p);
          var at := SizeFrom(entries, certs, i + 1);
          SamePart(d, d', at, certs[i], p);
        } else {
          SamePart(d, d', n, subStrings, p);
        }
      }
    }
  }

  // ---------- The data that are compressed ----------

  /** Where compressed certificate `i` starts, with its length in front. */
  ghost function DataStart(entries: seq<Entry>, certs: seq<Cert>, i: nat): nat
    requires i <= |entries| == |certs|
  {
    if i == 0 then 0 else DataStart(entries, certs, i - 1) + if entries[i - 1] == Compressed then 4 + |certs[i - 1]| else 0
  }

  ghost predicate IsData(d: seq<byte>, entries: seq<Entry>, certs: seq<Cert>)
    requires |entries| == |certs|
  {
    && |d| == DataStart(entries, certs, |entries|)
    && forall i | 0 <= i < |entries| && entries[i] == Compressed :: CertAt(d, DataStart(entries, certs, i), certs[i])
  }

  ghost predicate CertAt(d: seq<byte>, at: nat, cert: Cert) {
    NumberAt(d, at, |cert|, 4) && LiesAt(d, at + 4, cert)
  }

  /** The data from certificate `i` on are its piece and the data from the next one on. */
  lemma DataStep(entries: seq<Entry>, certs: seq<Cert>, i: nat)
    requires i < |entries| == |certs|
    ensures Payload(entries[i..], certs[i..]) == Piece(entries[i], certs[i]) + Payload(entries[i + 1..], certs[i + 1..])
    ensures DataStart(entries, certs, i + 1) == DataStart(entries, certs, i) + |Piece(entries[i], certs[i])|
  {
    assert entries[i..][1..] == entries[i + 1..] && certs[i..][1..] == certs[i + 1..];
  }

  lemma {:induction false} DataFrom(entries: seq<Entry>, certs: seq<Cert>, i: nat, d: seq<byte>, at: nat, rest: seq<byte>)
    requires i <= |entries| == |certs| && d == Payload(entries, certs)
    requires at == DataStart(entries, certs, i) && rest == Payload(entries[i..], certs[i..])
    ensures LiesAt(d, at, rest) && at + |rest| == |d|
  {
    if i == 0 {
      assert entries[0..] == entries && certs[0..] == certs;
    } else {
      var j := i - 1;
      var at', rest', part := DataStart(entries, certs, j), Payload(entries[j..], certs[j..]), Piece(entries[j], certs[j]);
      DataFrom(entries, certs, j, d, at', rest');
      DataStep(entries, certs, j);
      BothLie(d, at', part, rest, rest', at);
    }
  }

  lemma CertLies(d: seq<byte>, at: nat, cert: Cert, size: seq<byte>, part: seq<byte>)
    requires size == Le(|cert|, 4) && part == size + cert && LiesAt(d, at, part)
    ensures CertAt(d, at, cert)
  {
    BothLie(d, at, size, cert, part, at + 4);
    NumberLies(d, at, |cert|, 4);
  }

  lemma DataLaid(entries: seq<Entry>, certs: seq<Cert>, d: seq<byte>)
    requires |entries| == |certs| && d == Payload(entries, certs)
    ensures IsData(d, entries, certs)
  {
    var n := |entries|;
    forall i | 0 <= i < n && entries[i] == Compressed
      ensures CertAt(d, DataStart(entries, certs, i), certs[i])
    {
      var at, all, rest := DataStart(entries, certs, i), Payload(entries[i..], certs[i..]), Payload(entries[i + 1..], certs[i + 1..]);
      var part := Piece(entries[i], certs[i]);
      DataFrom(entries, certs, i, d, at, all);
      DataStep(entries, certs, i);
      BothLie(d, at, part, rest, all, at + |part|);
      CertLies(d, at, certs[i], Le(|certs[i]|, 4), part);
    }
    DataFrom(entries, certs, n, d, DataStart(entries, certs, n), Payload(entries[n..], certs[n..]));
    assert entries[n..] == [] && certs[n..] == [];
  }

  // ---------- The message ----------

  /** The entries, the size of the data, and the data, deflated with the dictionary. */
  ghost predicate IsDeflated(sh: Shared, message: seq<byte>, entries: seq<Entry>, certs: seq<Cert>,
                             dict: seq<byte>, data: seq<byte>, k: nat)
    requires |entries| == |certs|
  {
    && IsDictionary(dict, entries, certs, sh.subStrings) && IsData(data, entries, certs)
    && k + 4 <= |message| && IsWire(message[..k], entries) && NumberAt(message, k, |data|, 4)
    && sh.codec.deflate(dict, data) == Some(message[k + 4..])
  }

  /** A message has data if and only if a certificate is compressed. */
  ghost predicate IsMessage(sh: Shared, message: seq<byte>, entries: seq<Entry>, certs: seq<Cert>)
    requires |entries| == |certs|
  {
    if Compressed in entries then exists dict, data, k: nat :: IsDeflated(sh, message, entries, certs, dict, data, k)
    else IsWire(message, entries)
  }

  lemma {:induction false} HasData(entries: seq<Entry>, certs: seq<Cert>)
    requires |entries| == |certs|
    ensures Payload(entries, certs) != [] <==> Compressed in entries
  {
    if entries != [] {
      HasData(entries[1..], certs[1..]);
      assert entries == [entries[0]] + entries[1..];
    }
  }

  lemma DeflatedLaid(sh: Shared, entries: seq<Entry>, certs: seq<Cert>, message: seq<byte>,
                     wire: seq<byte>, dict: seq<byte>, data: seq<byte>, size: seq<byte>, z: seq<byte>, k: nat)
    requires |entries| == |certs| && wire == Wire(entries) && data == Payload(entries, certs)
    requires dict == Dict(entries, certs, sh.subStrings) && sh.codec.deflate(dict, data) == Some(z)
    requires size == Le(|data|, 4) && message == wire + (size + z) && k == |wire|
    ensures IsDeflated(sh, message, entries, certs, dict, data, k)
  {
    WireLaid(entries);
    DataLaid(entries, certs, data);
    DictLaid(entries, certs, sh.subStrings);
    MessageCut(message, wire, size, z, k);
    NumberLies(message, k, |data|, 4);
  }

  lemma MessageCut(message: seq<byte>, wire: seq<byte>, size: seq<byte>, z: seq<byte>, k: nat)
    requires message == wire + (size + z) && k == |wire| && |size| == 4
    ensures message[..k] == wire && message[k + 4..] == z && LiesAt(message, k, size)
  {
  }

  lemma MessageLaid(sh: Shared, entries: seq<Entry>, certs: seq<Cert>, message: seq<byte>)
    requires |entries| == |certs| && Assembled(sh, entries, certs) == Some(message)
    ensures IsMessage(sh, message, entries, certs)
  {
    var wire, data, dict := Wire(entries), Payload(entries, certs), Dict(entries, certs, sh.subStrings);
    HasData(entries, certs);
    if data == [] {
      WireLaid(entries);
    } else {
      var size, z, k := Le(|data|, 4), sh.codec.deflate(dict, data).value, |wire|;
      DeflatedLaid(sh, entries, certs, message, wire, dict, data, size, z, k);
    }
  }

  // ---------- What can be parsed ----------

  lemma {:induction false} UnLeBelow(b: seq<byte>)
    ensures UnLe(b) < Pow256(|b|)
  {
    if b != [] {
      UnLeBelow(b[1..]);
    }
  }

  lemma {:induction false} LeOfUnLe(b: seq<byte>)
    ensures Le(UnLe(b), |b|) == b
  {
    if b != [] {
      var more, n, k := b[1..], UnLe(b), |b| - 1;
      LeOfUnLe(more);
      assert n % 256 == b[0] as nat && n / 256 == UnLe(more);
      assert Le(n, k + 1) == [b[0]] + Le(UnLe(more), k);
    }
  }

  /** An entry that is parsed fits its fields and is printed as the bytes that it was parsed from. */
  lemma FirstPrints(buf: seq<byte>)
    requires First(buf).Some?
    ensures var e := First(buf).value;
            Fits(e) && Length(e) <= |buf| && buf == EntryBytes(e) + buf[Length(e)..]
  {
    Powers();
    match First(buf).value {
      case Compressed =>
      case Cached(_) =>
        LeOfUnLe(buf[1..9]);
        UnLeBelow(buf[1..9]);
      case Common(_, _) =>
        LeOfUnLe(buf[1..9]);
        LeOfUnLe(buf[9..13]);
        UnLeBelow(buf[1..9]);
        UnLeBelow(buf[9..13]);
    }
  }

  lemma {:induction false} ParsePrints(buf: seq<byte>)
    requires Parse(buf).Some?
    ensures var p := Parse(buf).value;
            (forall i | 0 <= i < |p.entries| :: Fits(p.entries[i])) && buf == Wire(p.entries) + p.rest
    decreases |buf|
  {
    if buf[0] == 0 {
      assert buf == [0] + buf[1..];
    } else {
      FirstPrints(buf);
      var e := First(buf).value;
      var tail := buf[Length(e)..];
      ParsePrints(tail);
      var p, q := Parse(buf).value, Parse(tail).value;
      assert p.entries == [e] + q.entries && p.entries[1..] == q.entries;
      Assoc(EntryBytes(e), Wire(q.entries), q.rest);
    }
  }

  /** A message can be parsed exactly when it starts with printed entries, and then into these. */
  lemma ParseExactly(buf: seq<byte>, entries: seq<Entry>, rest: seq<byte>)
    ensures Parse(buf) == Some(Parsed(entries, rest)) <==>
            (forall i | 0 <= i < |entries| :: Fits(entries[i])) && buf == Wire(entries) + rest
  {
    if Parse(buf) == Some(Parsed(entries, rest)) {
      ParsePrints(buf);
    }
    if (forall i | 0 <= i < |entries| :: Fits(entries[i])) && buf == Wire(entries) + rest {
      ParseWire(entries, rest);
    }
  }
}
