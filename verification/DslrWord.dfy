/** The ticket lock's word: four 16-bit counters in 64 bits, driven by fetch-and-add. */
module DslrWord {

  const BASE: nat := 0x1_0000
  const WORD: nat := 0x1_0000_0000_0000_0000

  /** Next exclusive and shared ticket to be served; next ones to be handed out. */
  datatype Segment = NX | NS | MAXX | MAXS

  function Enc(nx: nat, ns: nat, maxx: nat, maxs: nat): nat {
    nx * 0x1_0000_0000_0000 + ns * 0x1_0000_0000 + maxx * 0x1_0000 + maxs
  }

  function Nx(w: nat): nat { w / 0x1_0000_0000_0000 }
  function Ns(w: nat): nat { w / 0x1_0000_0000 % 0x1_0000 }
  function Maxx(w: nat): nat { w / 0x1_0000 % 0x1_0000 }
  function Maxs(w: nat): nat { w % 0x1_0000 }

  /** What the request adds: a 64-bit value shifted to the segment, dropping what does not fit. */
  function Addend(segment: Segment, val: nat): nat {
    match segment
    case NX => val * 0x1_0000_0000_0000 % WORD
    case NS => val * 0x1_0000_0000 % WORD
    case MAXX => val * 0x1_0000 % WORD
    case MAXS => val % WORD
  }

  function FetchAdd(w: nat, segment: Segment, val: nat): (r: nat)
    ensures r < WORD
  {
    (w + Addend(segment, val)) % WORD
  }

  /** Encoding and decoding are inverse on 16-bit counters. */
  lemma DecodeEncode(nx: nat, ns: nat, maxx: nat, maxs: nat)
    requires nx < BASE && ns < BASE && maxx < BASE && maxs < BASE
    ensures var w := Enc(nx, ns, maxx, maxs);
            w < WORD && Nx(w) == nx && Ns(w) == ns && Maxx(w) == maxx && Maxs(w) == maxs
  {
    var w := Enc(nx, ns, maxx, maxs);
    assert w / 0x1_0000 == nx * 0x1_0000_0000 + ns * 0x1_0000 + maxx;
    assert w / 0x1_0000_0000 == nx * 0x1_0000 + ns;
    assert w / 0x1_0000_0000_0000 == nx;
  }

  lemma EncodeDecode(w: nat)
    requires w < WORD
    ensures Enc(Nx(w), Ns(w), Maxx(w), Maxs(w)) == w
    ensures Nx(w) < BASE && Ns(w) < BASE && Maxx(w) < BASE && Maxs(w) < BASE
  {
    assert w / 0x1_0000 / 0x1_0000 == w / 0x1_0000_0000;
    assert w / 0x1_0000_0000 / 0x1_0000 == w / 0x1_0000_0000_0000;
  }

  /** Adding one to a counter that is not full changes that counter only. */
  lemma AddOne(nx: nat, ns: nat, maxx: nat, maxs: nat)
    requires nx < BASE && ns < BASE && maxx < BASE && maxs < BASE
    ensures maxs + 1 < BASE ==> FetchAdd(Enc(nx, ns, maxx, maxs), MAXS, 1) == Enc(nx, ns, maxx, maxs + 1)
    ensures maxx + 1 < BASE ==> FetchAdd(Enc(nx, ns, maxx, maxs), MAXX, 1) == Enc(nx, ns, maxx + 1, maxs)
    ensures ns + 1 < BASE ==> FetchAdd(Enc(nx, ns, maxx, maxs), NS, 1) == Enc(nx, ns + 1, maxx, maxs)
    ensures nx + 1 < BASE ==> FetchAdd(Enc(nx, ns, maxx, maxs), NX, 1) == Enc(nx + 1, ns, maxx, maxs)
  {
    assert Addend(MAXS, 1) == 1 && Addend(MAXX, 1) == 0x1_0000;
    assert Addend(NS, 1) == 0x1_0000_0000 && Addend(NX, 1) == 0x1_0000_0000_0000;
    assert maxs + 1 < BASE ==> Enc(nx, ns, maxx, maxs + 1) < WORD;
    assert maxx + 1 < BASE ==> Enc(nx, ns, maxx + 1, maxs) < WORD;
    assert ns + 1 < BASE ==> Enc(nx, ns + 1, maxx, maxs) < WORD;
    assert nx + 1 < BASE ==> Enc(nx + 1, ns, maxx, maxs) < WORD;
  }

  /** Requests for tickets leave the neighbouring counter alone exactly as long as their own counter
      is not full: a full one carries. */
  lemma CarriesWhenFull(nx: nat, ns: nat, maxx: nat, maxs: nat)
    requires nx < BASE && ns < BASE && maxx < BASE && maxs < BASE
    ensures Maxx(FetchAdd(Enc(nx, ns, maxx, maxs), MAXS, 1)) == maxx <==> maxs + 1 < BASE
    ensures Ns(FetchAdd(Enc(nx, ns, maxx, maxs), MAXX, 1)) == ns <==> maxx + 1 < BASE
  {
    AddOne(nx, ns, maxx, maxs);
    if maxs + 1 < BASE { DecodeEncode(nx, ns, maxx, maxs + 1); } else { SharedCarry(nx, ns, maxx); }
    if maxx + 1 < BASE { DecodeEncode(nx, ns, maxx + 1, maxs); } else { ExclusiveCarry(nx, ns, maxs); }
  }

  /** The next counter up, when the lower ones have just become zero. */
  lemma SharedCarry(nx: nat, ns: nat, maxx: nat)
    requires nx < BASE && ns < BASE && maxx < BASE
    ensures Maxx(FetchAdd(Enc(nx, ns, maxx, BASE - 1), MAXS, 1)) == (maxx + 1) % BASE
  {
    var q := nx * 0x1_0000_0000 + ns * 0x1_0000 + maxx + 1;
    assert FetchAdd(Enc(nx, ns, maxx, BASE - 1), MAXS, 1) == q * 0x1_0000 % WORD;
    if q * 0x1_0000 < WORD {
      assert q * 0x1_0000 % WORD == q * 0x1_0000;
      assert q % 0x1_0000 == (maxx + 1) % 0x1_0000;
    } else {
      assert q * 0x1_0000 == WORD;
    }
  }

  lemma ExclusiveCarry(nx: nat, ns: nat, maxs: nat)
    requires nx < BASE && ns < BASE && maxs < BASE
    ensures Ns(FetchAdd(Enc(nx, ns, BASE - 1, maxs), MAXX, 1)) == (ns + 1) % BASE
  {
    var q := nx * 0x1_0000 + ns + 1;
    assert Addend(MAXX, 1) == 0x1_0000;
    assert FetchAdd(Enc(nx, ns, BASE - 1, maxs), MAXX, 1) == (q * 0x1_0000_0000 + maxs) % WORD;
    if q * 0x1_0000_0000 + maxs < WORD {
      assert (q * 0x1_0000_0000 + maxs) / 0x1_0000_0000 == q;
      assert q % 0x1_0000 == (ns + 1) % 0x1_0000;
    } else {
      assert q * 0x1_0000_0000 == WORD;
      assert (WORD + maxs) % WORD == maxs;
    }
  }

  /** The value that backs out an exclusive request: 48 ones, which the shift moves to the top. */
  const MINUS_ONE_48: nat := 0xffff_ffff_ffff
  const MINUS_ONE_64: nat := 0xffff_ffff_ffff_ffff

  /** Taking a request back: the additions wrap around, so that only the one segment goes down. */
  lemma TakeBack(nx: nat, ns: nat, maxx: nat, maxs: nat)
    requires nx < BASE && ns < BASE && maxx < BASE && maxs < BASE
    ensures 0 < maxs ==> FetchAdd(Enc(nx, ns, maxx, maxs), MAXS, MINUS_ONE_64) == Enc(nx, ns, maxx, maxs - 1)
    ensures 0 < maxx ==> FetchAdd(Enc(nx, ns, maxx, maxs), MAXX, MINUS_ONE_48) == Enc(nx, ns, maxx - 1, maxs)
  {
    assert Addend(MAXX, MINUS_ONE_48) == WORD - 0x1_0000;
    assert Addend(MAXS, MINUS_ONE_64) == WORD - 1;
    DecodeEncode(nx, ns, maxx, maxs);
  }
}
