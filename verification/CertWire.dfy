/** The wire format of a compressed certificate chain. */
module CertWire {
  import opened Wrappers
  import opened StreamBytes
  import opened Arith

  /** How one certificate is sent. */
  datatype Entry = Compressed | Cached(hash: nat) | Common(setHash: nat, index: nat)

  // ---------- Little-endian numbers ----------

  function Pow256(k: nat): (r: nat)
    ensures r > 0
  {
    if k == 0 then 1 else 256 * Pow256(k - 1)
  }

  /** `n` in `k` bytes, the low byte first. */
  function Le(n: nat, k: nat): (r: seq<byte>)
    ensures |r| == k
  {
    if k == 0 then [] else [(n % 256) as byte] + Le(n / 256, k - 1)
  }

  function UnLe(b: seq<byte>): nat {
    if b == [] then 0 else b[0] as nat + 256 * UnLe(b[1..])
  }

  lemma {:induction false} LeRoundTrip(n: nat, k: nat)
    ensures UnLe(Le(n, k)) == n % Pow256(k)
  {
    if k > 0 {
      LeRoundTrip(n / 256, k - 1);
      assert Le(n, k)[1..] == Le(n / 256, k - 1);
      DigitSplit(n, Pow256(k - 1));
    }
  }

  lemma DigitSplit(n: nat, p: nat)
    requires p > 0
    ensures n % 256 + 256 * ((n / 256) % p) == n % (256 * p)
  {
    var q, r := (n / 256) / p, (n / 256) % p;
    var low := n % 256;
    assert n / 256 == q * p + r;
    assert n == 256 * (q * p + r) + low;
    var m := 256 * p;
    assert 256 * (q * p) == q * m;
    assert n == q * m + (256 * r + low);
    RemainderIs(n, m, q, 256 * r + low);
  }

  lemma RemainderIs(n: nat, m: nat, q: nat, r: nat)
    requires m > 0 && n == q * m + r && r < m
    ensures n % m == r
  {
    assert n == (n / m) * m + n % m;
    if n / m > q {
      TimesMono(q + 1, n / m, m);
      assert false;
    }
    if n / m < q {
      TimesMono(n / m + 1, q, m);
      assert false;
    }
  }

  lemma LeExact(n: nat, k: nat)
    requires n < Pow256(k)
    ensures UnLe(Le(n, k)) == n
  {
  }

  lemma Powers()
    ensures Pow256(4) == 0x1_0000_0000 && Pow256(8) == 0x1_0000_0000_0000_0000
  {
  }

  // ---------- Entries ----------

  ghost predicate Fits(e: Entry) {
    match e
    case Compressed => true
    case Cached(h) => h < 0x1_0000_0000_0000_0000
    case Common(s, i) => s < 0x1_0000_0000_0000_0000 && i < 0x1_0000_0000
  }

  function EntryBytes(e: Entry): seq<byte> {
    match e
    case Compressed => [1]
    case Cached(h) => [2] + Le(h, 8)
    case Common(s, i) => [3] + Le(s, 8) + Le(i, 4)
  }

  /** The entries, and an end marker. */
  function Wire(entries: seq<Entry>): seq<byte> {
    if entries == [] then [0] else EntryBytes(entries[0]) + Wire(entries[1..])
  }

  datatype Parsed = Parsed(entries: seq<Entry>, rest: seq<byte>)

  /** The first entry of `buf`, if it is complete and not the end marker. */
  function First(buf: seq<byte>): Option<Entry> {
    if buf == [] then None
    else if buf[0] == 1 then Some(Compressed)
    else if buf[0] == 2 && |buf| >= 9 then Some(Cached(UnLe(buf[1..9])))
    else if buf[0] == 3 && |buf| >= 13 then Some(Common(UnLe(buf[1..9]), UnLe(buf[9..13])))
    else None
  }

  function Length(e: Entry): (n: nat)
    ensures n > 0
  {
    match e
    case Compressed => 1
    case Cached(_) => 9
    case Common(_, _) => 13
  }

  lemma FirstFits(buf: seq<byte>)
    ensures First(buf).Some? ==> Length(First(buf).value) <= |buf|
  {
  }

  /** Entries up to the end marker, and what follows it. */
  function Parse(buf: seq<byte>): Option<Parsed>
    decreases |buf|
  {
    if buf != [] && buf[0] == 0 then Some(Parsed([], buf[1..]))
    else if First(buf).None? then None
    else
      FirstFits(buf);
      var e := First(buf).value;
      match Parse(buf[Length(e)..])
      case None => None
      case Some(p) => Some(Parsed([e] + p.entries, p.rest))
  }

  lemma FirstOfEntry(e: Entry, rest: seq<byte>)
    requires Fits(e)
    ensures var buf := EntryBytes(e) + rest;
            First(buf) == Some(e) && buf[0] != 0 && |EntryBytes(e)| == Length(e) && buf[Length(e)..] == rest
  {
    var buf := EntryBytes(e) + rest;
    Powers();
    match e {
      case Compressed =>
      case Cached(h) =>
        LeExact(h, 8);
        assert buf[1..9] == Le(h, 8);
      case Common(s, i) =>
        LeExact(s, 8);
        LeExact(i, 4);
        assert buf[1..9] == Le(s, 8);
        assert buf[9..13] == Le(i, 4);
    }
  }

  lemma ParseStep(e: Entry, tail: seq<byte>, p: Parsed)
    requires Fits(e) && Parse(tail) == Some(p)
    ensures Parse(EntryBytes(e) + tail) == Some(Parsed([e] + p.entries, p.rest))
  {
    FirstOfEntry(e, tail);
  }

  /** Parsing undoes printing, whatever follows. */
  lemma {:induction false} ParseWire(entries: seq<Entry>, rest: seq<byte>)
    requires forall i | 0 <= i < |entries| :: Fits(entries[i])
    ensures Parse(Wire(entries) + rest) == Some(Parsed(entries, rest))
  {
    if entries == [] {
      assert (Wire(entries) + rest)[1..] == rest;
    } else {
      var e, more := entries[0], entries[1..];
      ParseWire(more, rest);
      ParseStep(e, Wire(more) + rest, Parsed(more, rest));
      Assoc(EntryBytes(e), Wire(more), rest);
      assert [e] + more == entries;
    }
  }
}
