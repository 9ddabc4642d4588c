/**
 * Reading the slave information in the EEPROM (`ecx_siifind`, `ecx_siiPDO`,
 * section 5.4 of ETG.1000.6): a list of categories, and in two of them the
 * lists of process data objects.
 */
module SiiDecoder {
  import opened Common
  import opened Sequences
  import opened Frames
  import opened EepromCache

  /** Byte address of the first category. */
  const SII_START: nat := 0x80
  const ECT_SII_PDO: word := 50
  const EC_MAXSM: nat := 8
  const EC_MAXEEPDO: nat := 0x200

  /** A read of any width from here stays inside the buffer. */
  predicate Inside(a: nat) {
    a + 8 <= EC_MAXEEPBUF
  }

  function WordOf(e: Eeprom, a: nat): word {
    var lo: nat, hi: nat := e.Byte(a), e.Byte(a + 1);
    lo + 0x100 * hi
  }

  /** The low byte of a word comes first. */
  lemma LowFirst(e: Eeprom, a: nat)
    ensures WordOf(e, a) % 0x100 == e.Byte(a) && WordOf(e, a) / 0x100 == e.Byte(a + 1)
  {}

  /** A category: its number, and its size in words. */
  datatype Category = Category(kind: word, size: word)

  /** The EEPROM holds these categories from byte `at` on, and then the end mark. */
  ghost predicate Categories(e: Eeprom, at: nat, cats: seq<Category>)
    decreases |cats|
  {
    && Inside(at + 4)
    && if cats == [] then WordOf(e, at) == 0xffff
       else
         && cats[0].kind != 0xffff && WordOf(e, at) == cats[0].kind && WordOf(e, at + 2) == cats[0].size
         && Categories(e, at + 4 + 2 * cats[0].size, cats[1..])
  }

  /** Byte address of the length field of the first category of a kind, zero if there is none. */
  function Location(cats: seq<Category>, kind: word, at: nat): nat {
    if cats == [] then 0
    else if cats[0].kind == kind then at + 2
    else Location(cats[1..], kind, at + 4 + 2 * cats[0].size)
  }

  /** Byte address of the `i`-th category. */
  function StartOf(cats: seq<Category>, i: nat, at: nat): nat
    requires i <= |cats|
  {
    if i == 0 then at else StartOf(cats[1..], i - 1, at + 4 + 2 * cats[0].size)
  }

  /** The location is that of the first category of the kind, and zero exactly when there is none. */
  lemma {:induction false} LocationIsFirst(cats: seq<Category>, kind: word, at: nat)
    requires at > 0
    ensures Location(cats, kind, at) == 0 <==> forall i :: 0 <= i < |cats| ==> cats[i].kind != kind
    ensures forall i :: 0 <= i < |cats| && cats[i].kind == kind && (forall j :: 0 <= j < i ==> cats[j].kind != kind) ==>
              Location(cats, kind, at) == StartOf(cats, i, at) + 2
  {
    if cats != [] && cats[0].kind != kind {
      LocationIsFirst(cats[1..], kind, at + 4 + 2 * cats[0].size);
      forall i | 0 <= i < |cats| && cats[i].kind == kind && (forall j :: 0 <= j < i ==> cats[j].kind != kind)
        ensures Location(cats, kind, at) == StartOf(cats, i, at) + 2
      {
        assert cats[1..][i - 1] == cats[i];
      }
    }
  }

  method GetWord(cache: Cache, slave: nat, a: nat) returns (p: word)
    requires cache.Valid() && Inside(a + 1)
    modifies cache`esislave, cache.esibuf, cache.esimap
    ensures cache.Valid() && p == WordOf(cache.slaves(slave), a)
  {
    var lo: nat := cache.GetByte(slave, a);
    var hi: nat := cache.GetByte(slave, a + 1);
    p := lo + 0x100 * hi;
  }

  /** Finds a category: the address of its length field, zero if it is not there. */
  method SiiFind(cache: Cache, slave: nat, cat: word, ghost cats: seq<Category>) returns (a: nat)
    requires cache.Valid() && Categories(cache.slaves(slave), SII_START, cats) && cat != 0xffff
    modifies cache`esislave, cache.esibuf, cache.esimap
    ensures cache.Valid() && a == Location(cats, cat, SII_START)
  {
    hide WordOf, Cache.Valid;
    a := SII_START;
    ghost var rest := cats;
    var p := GetWord(cache, slave, a);
    a := a + 2;
    while p != cat && p != 0xffff
      invariant cache.Valid() && a >= 2 && Categories(cache.slaves(slave), a - 2, rest)
                && p == WordOf(cache.slaves(slave), a - 2)
      invariant Location(rest, cat, a - 2) == Location(cats, cat, SII_START)
      decreases |rest|
    {
      var size := GetWord(cache, slave, a);
      a := a + 2 + 2 * size;
      rest := rest[1..];
      p := GetWord(cache, slave, a);
      a := a + 2;
    }
    if p != cat { a := 0; }
  }

  /** A process data object: index, sync manager, and the bit sizes of its entries. */
  datatype Pdo = Pdo(index: word, syncM: byte, sizes: seq<byte>) {
    function Words(): nat { 4 + 4 * |sizes| }

    predicate Active() { syncM < EC_MAXSM }

    function Bits(): nat {
      if Active() then Sum(sizes) else 0
    }
  }

  /** One object in the EEPROM. */
  ghost predicate PdoAt(e: Eeprom, at: nat, p: Pdo) {
    && Inside(at + 2 * p.Words())
    && WordOf(e, at) == p.index && e.Byte(at + 2) == |p.sizes| && e.Byte(at + 3) == p.syncM
    && forall j {:trigger p.sizes[j]} :: 0 <= j < |p.sizes| ==> e.Byte(at + 8 + 8 * j + 5) == p.sizes[j]
  }

  ghost predicate PdosAt(e: Eeprom, at: nat, pdos: seq<Pdo>)
    decreases |pdos|
  {
    pdos == [] || (PdoAt(e, at, pdos[0]) && PdosAt(e, at + 2 * pdos[0].Words(), pdos[1..]))
  }

  /** Size of a list in words. */
  function WordsOf(pdos: seq<Pdo>): nat {
    if pdos == [] then 0 else WordsOf(pdos[..|pdos| - 1]) + pdos[|pdos| - 1].Words()
  }

  /** Bits mapped to sync manager `s`. */
  function SmBits(pdos: seq<Pdo>, s: nat): nat {
    if pdos == [] then 0
    else SmBits(pdos[..|pdos| - 1], s) + if pdos[|pdos| - 1].syncM == s then Sum(pdos[|pdos| - 1].sizes) else 0
  }

  /** Bits mapped to any sync manager. */
  function TotalBits(pdos: seq<Pdo>): nat {
    if pdos == [] then 0 else TotalBits(pdos[..|pdos| - 1]) + pdos[|pdos| - 1].Bits()
  }

  function BitsBelow(pdos: seq<Pdo>, n: nat): nat {
    if n == 0 then 0 else BitsBelow(pdos, n - 1) + SmBits(pdos, n - 1)
  }

  lemma {:induction false} NothingBelow(n: nat)
    ensures BitsBelow([], n) == 0
  {
    if n > 0 { NothingBelow(n - 1); }
  }

  lemma {:induction false} OneBelow(pdos: seq<Pdo>, n: nat)
    requires pdos != []
    ensures var p := pdos[|pdos| - 1];
            BitsBelow(pdos, n) == BitsBelow(pdos[..|pdos| - 1], n) + if p.syncM < n then Sum(p.sizes) else 0
  {
    if n > 0 { OneBelow(pdos, n - 1); }
  }

  /** The sync managers share out all mapped bits. */
  lemma {:induction false} SharedOut(pdos: seq<Pdo>)
    ensures BitsBelow(pdos, 8) == TotalBits(pdos)
  {
    if pdos == [] {
      NothingBelow(EC_MAXSM);
    } else {
      var front, p := pdos[..|pdos| - 1], pdos[|pdos| - 1];
      SharedOut(front);
      OneBelow(pdos, EC_MAXSM);
    }
  }

  lemma {:induction false} SumBound(s: seq<byte>)
    ensures Sum(s) <= 0xff * |s|
  {
    if s != [] { SumBound(s[..|s| - 1]); }
  }

  /** What is known of the objects read: entries from 1 on. */
  class PdoTable {
    var Startpos: nat
    var Length: nat
    var nPDO: nat
    const Index: array<nat>
    const SyncM: array<nat>
    const BitSize: array<nat>
    const SMbitsize: array<nat>

    constructor ()
      ensures Valid() && fresh(Index) && fresh(SyncM) && fresh(BitSize) && fresh(SMbitsize)
    {
      Startpos, Length, nPDO := 0, 0, 0;
      Index := new nat[EC_MAXEEPDO](_ => 0);
      SyncM := new nat[EC_MAXEEPDO](_ => 0);
      BitSize := new nat[EC_MAXEEPDO](_ => 0);
      SMbitsize := new nat[EC_MAXSM](_ => 0);
    }

    ghost predicate Valid()
      reads this
    {
      && Index.Length == SyncM.Length == BitSize.Length == EC_MAXEEPDO && SMbitsize.Length == EC_MAXSM
      && Index != SyncM && Index != BitSize && SyncM != BitSize
      && SMbitsize != Index && SMbitsize != SyncM && SMbitsize != BitSize
    }

    /** The table holds the first `k` objects. */
    ghost predicate Holds(pdos: seq<Pdo>, k: nat)
      reads this, Index, SyncM, BitSize, SMbitsize
    {
      && Valid() && k <= |pdos| && k < EC_MAXEEPDO && nPDO == k
      && (forall i :: 0 <= i < k ==>
            Index[i + 1] == pdos[i].index && SyncM[i + 1] == pdos[i].syncM && BitSize[i + 1] == pdos[i].Bits())
      && (forall s :: 0 <= s < EC_MAXSM ==> SMbitsize[s] == Short(SmBits(pdos[..k], s)))
    }
  }

  /** Adds up the bit sizes of the entries of an object whose first entry is at `a0`. */
  method AddEntries(cache: Cache, slave: nat, a0: nat, ghost p: Pdo, e: nat) returns (a: nat, bits: nat)
    requires cache.Valid() && a0 >= 8 && PdoAt(cache.slaves(slave), a0 - 8, p) && e == |p.sizes|
    modifies cache`esislave, cache.esibuf, cache.esimap
    ensures cache.Valid() && a == a0 + 8 * e && bits == Sum(p.sizes)
  {
    a, bits := a0, 0;
    for er := 0 to e
      invariant cache.Valid() && a == a0 + 8 * er && bits == Sum(p.sizes[..er])
    {
      var b := cache.GetByte(slave, a + 5);
      assert b == p.sizes[er] && |p.sizes| <= 0xff;
      SumPrefix(p.sizes, er);
      SumBound(p.sizes[..er + 1]);
      bits := Short(bits + b);
      a := a + 8;
    }
    assert p.sizes[..e] == p.sizes;
  }

  /** What one object adds to the table. */
  method Enter(t: PdoTable, index: word, syncM: byte, bits: nat, ghost pdos: seq<Pdo>)
    requires t.Holds(pdos, t.nPDO) && t.nPDO < |pdos| && t.nPDO + 1 < EC_MAXEEPDO
    requires pdos[t.nPDO].index == index && pdos[t.nPDO].syncM == syncM && pdos[t.nPDO].Bits() == bits
    modifies t`nPDO, t.Index, t.SyncM, t.BitSize, t.SMbitsize
    ensures t.nPDO == old(t.nPDO) + 1 && t.Holds(pdos, t.nPDO)
  {
    ghost var k := t.nPDO;
    t.nPDO := t.nPDO + 1;
    t.Index[t.nPDO] := index;
    t.SyncM[t.nPDO] := syncM;
    t.BitSize[t.nPDO] := bits;
    if syncM < EC_MAXSM {
      t.SMbitsize[syncM] := Short(t.SMbitsize[syncM] + bits);
    }
    assert pdos[..k + 1][..k] == pdos[..k];
    assert forall i :: 0 <= i < k ==>
        t.Index[i + 1] == pdos[i].index && t.SyncM[i + 1] == pdos[i].syncM && t.BitSize[i + 1] == pdos[i].Bits();
    assert t.Index[k + 1] == pdos[k].index && t.SyncM[k + 1] == pdos[k].syncM && t.BitSize[k + 1] == pdos[k].Bits();
    forall s: nat | s < EC_MAXSM ensures t.SMbitsize[s] == Short(SmBits(pdos[..k + 1], s)) {
      ShortAdd(SmBits(pdos[..k], s), bits);
    }
  }

  /** Reads the object at `a0`; `c0` counts words, `size0` bits. */
  method ReadPdo(cache: Cache, slave: nat, t: PdoTable, a0: nat, c0: nat, size0: nat, ghost pdos: seq<Pdo>)
    returns (a: nat, c: nat, size: nat)
    requires cache.Valid() && t.Holds(pdos, t.nPDO) && t.nPDO < |pdos| && t.nPDO + 1 < EC_MAXEEPDO
    requires PdoAt(cache.slaves(slave), a0, pdos[t.nPDO]) && size0 < 0x1_0000
    requires {cache, cache.esibuf, cache.esimap} !! {t, t.Index, t.SyncM, t.BitSize, t.SMbitsize}
    modifies cache`esislave, cache.esibuf, cache.esimap, t`nPDO, t.Index, t.SyncM, t.BitSize, t.SMbitsize
    ensures cache.Valid() && t.nPDO == old(t.nPDO) + 1 && t.Holds(pdos, t.nPDO)
    ensures var p := pdos[old(t.nPDO)];
            a == a0 + 2 * p.Words() && c == c0 + p.Words() && size == Short(size0 + p.Bits())
  {
    ghost var p := pdos[t.nPDO];
    var index := GetWord(cache, slave, a0);
    var e: nat := cache.GetByte(slave, a0 + 2);
    var syncM := cache.GetByte(slave, a0 + 3);
    a, c, size := a0 + 8, c0 + 3, size0;
    var bits := 0;
    if syncM < EC_MAXSM {
      a, bits := AddEntries(cache, slave, a, p, e);
      size := Short(size + bits);
    } else {
      a := a + 8 * e;
    }
    c := c + 4 * e + 1;
    Enter(t, index, syncM, bits, pdos);
  }

  lemma PdosNext(e: Eeprom, at: nat, pdos: seq<Pdo>, k: nat)
    requires k < |pdos| && PdosAt(e, at, pdos[k..])
    ensures PdoAt(e, at, pdos[k]) && PdosAt(e, at + 2 * pdos[k].Words(), pdos[k + 1..])
  {
    assert pdos[k..][1..] == pdos[k + 1..];
  }

  lemma {:induction false} WordsBefore(pdos: seq<Pdo>, k: nat)
    requires k <= |pdos|
    ensures WordsOf(pdos[..k]) + 4 * (|pdos| - k) <= WordsOf(pdos)
    decreases |pdos|
  {
    if k == |pdos| {
      assert pdos[..k] == pdos;
    } else {
      assert pdos[..|pdos| - 1][..k] == pdos[..k];
      WordsBefore(pdos[..|pdos| - 1], k);
    }
  }

  /** One more object. */
  lemma OneMorePdo(pdos: seq<Pdo>, k: nat)
    requires k < |pdos|
    ensures WordsOf(pdos[..k + 1]) == WordsOf(pdos[..k]) + pdos[k].Words()
    ensures TotalBits(pdos[..k + 1]) == TotalBits(pdos[..k]) + pdos[k].Bits()
  {
    assert pdos[..k + 1][..k] == pdos[..k];
  }

  /** How many objects the table has room for. */
  function Taken(n: nat): (t: nat)
    ensures t <= n && t <= 511 && (t == n || t == 511)
  {
    if n < EC_MAXEEPDO then n else EC_MAXEEPDO - 1
  }

  /** The reading position is behind the first `k` objects. */
  ghost predicate Behind(e: Eeprom, a: nat, c: nat, pdos: seq<Pdo>, k: nat) {
    k < |pdos| && k + 1 < EC_MAXEEPDO && PdosAt(e, a, pdos[k..]) && c == 1 + WordsOf(pdos[..k])
  }

  /** Whether there is more to read behind object `k`, with the limit of the table. */
  lemma GoesOn(e: Eeprom, a: nat, c: nat, pdos: seq<Pdo>, k: nat)
    requires Behind(e, a, c, pdos, k)
    ensures var c' := if k + 1 >= EC_MAXEEPDO - 1 then WordsOf(pdos) else c + pdos[k].Words();
            if c' < WordsOf(pdos) then Behind(e, a + 2 * pdos[k].Words(), c', pdos, k + 1) else k + 1 == Taken(|pdos|)
  {
    PdosNext(e, a, pdos, k);
    OneMorePdo(pdos, k);
    if k + 1 == |pdos| {
      assert pdos[..k + 1] == pdos;
    } else {
      WordsBefore(pdos, k + 1);
    }
  }

  /** One turn of the loop. */
  method ReadNext(cache: Cache, slave: nat, t: PdoTable, a0: nat, c0: nat, size0: nat, ghost pdos: seq<Pdo>)
    returns (a: nat, c: nat, size: nat)
    requires cache.Valid() && t.Holds(pdos, t.nPDO) && Behind(cache.slaves(slave), a0, c0, pdos, t.nPDO)
    requires t.Length == WordsOf(pdos) && size0 == Short(TotalBits(pdos[..t.nPDO]))
    requires {cache, cache.esibuf, cache.esimap} !! {t, t.Index, t.SyncM, t.BitSize, t.SMbitsize}
    modifies cache`esislave, cache.esibuf, cache.esimap, t`nPDO, t.Index, t.SyncM, t.BitSize, t.SMbitsize
    ensures cache.Valid() && t.nPDO == old(t.nPDO) + 1 && t.Holds(pdos, t.nPDO)
            && size == Short(TotalBits(pdos[..t.nPDO]))
    ensures if c < t.Length then Behind(cache.slaves(slave), a, c, pdos, t.nPDO) else t.nPDO == Taken(|pdos|)
  {
    hide PdosAt, PdoAt, TotalBits, WordsOf, Short, PdoTable.Holds;
    ghost var k := t.nPDO;
    PdosNext(cache.slaves(slave), a0, pdos, k);
    GoesOn(cache.slaves(slave), a0, c0, pdos, k);
    OneMorePdo(pdos, k);
    ShortAdd(TotalBits(pdos[..k]), pdos[k].Bits());
    a, c, size := ReadPdo(cache, slave, t, a0, c0, size0, pdos);
    if t.nPDO >= EC_MAXEEPDO - 1 { c := t.Length; }
  }

  /**
   * Reads the object list at `a0`, behind its length field.  Every object is
   * visited once, up to the limit of the table, and the result is the sum of
   * all mapped bits, in 16 bits.
   */
  method ReadPdos(cache: Cache, slave: nat, t: PdoTable, a0: nat, ghost pdos: seq<Pdo>) returns (size: nat)
    requires cache.Valid() && pdos != [] && t.Holds(pdos, 0) && t.Length == WordsOf(pdos)
    requires PdosAt(cache.slaves(slave), a0, pdos)
    requires {cache, cache.esibuf, cache.esimap} !! {t, t.Index, t.SyncM, t.BitSize, t.SMbitsize}
    modifies cache`esislave, cache.esibuf, cache.esimap, t`nPDO, t.Index, t.SyncM, t.BitSize, t.SMbitsize
    ensures cache.Valid() && t.Holds(pdos, Taken(|pdos|)) && size == Short(TotalBits(pdos[..Taken(|pdos|)]))
  {
    var a: nat, c: nat := a0, 1;
    size := 0;
    assert pdos[0..] == pdos && pdos[..0] == [];
    a, c, size := ReadNext(cache, slave, t, a, c, size, pdos);
    while c < t.Length
      invariant cache.Valid() && t.Holds(pdos, t.nPDO) && size == Short(TotalBits(pdos[..t.nPDO]))
      invariant if c < t.Length then Behind(cache.slaves(slave), a, c, pdos, t.nPDO) else t.nPDO == Taken(|pdos|)
      decreases |pdos| - t.nPDO
    {
      a, c, size := ReadNext(cache, slave, t, a, c, size, pdos);
    }
  }

  /** The category of the object list of kind `t`: its size and the objects in it. */
  ghost predicate ListIn(e: Eeprom, cats: seq<Category>, kind: word, pdos: seq<Pdo>) {
    var a := Location(cats, kind, SII_START);
    a > 0 ==> Inside(a + 1) && WordOf(e, a) == WordsOf(pdos) && pdos != [] && PdosAt(e, a + 2, pdos)
  }

  /** The table before the first object. */
  method Clear(t: PdoTable, ghost pdos: seq<Pdo>)
    requires t.Valid()
    modifies t`nPDO, t.Index, t.SMbitsize
    ensures t.Holds([], 0) && t.Holds(pdos, 0) && t.Index[1] == 0
  {
    t.nPDO := 0;
    t.Index[1] := 0;
    forall c | 0 <= c < EC_MAXSM { t.SMbitsize[c] := 0; }
    assert pdos[..0] == [];
  }

  /** Reads the receive (`tx == 0`) or transmit objects of a slave. */
  method SiiPDO(cache: Cache, slave: nat, t: PdoTable, tx: nat, ghost cats: seq<Category>, ghost pdos: seq<Pdo>)
    returns (size: nat)
    requires cache.Valid() && t.Valid()
    requires {cache, cache.esibuf, cache.esimap} !! {t, t.Index, t.SyncM, t.BitSize, t.SMbitsize}
    requires Categories(cache.slaves(slave), SII_START, cats)
    requires ListIn(cache.slaves(slave), cats, if tx > 0 then ECT_SII_PDO + 1 else ECT_SII_PDO, pdos)
    modifies cache`esislave, cache.esibuf, cache.esimap, t, t.Index, t.SyncM, t.BitSize, t.SMbitsize
    ensures cache.Valid() && t.Valid() && t.Startpos == Location(cats, if tx > 0 then 51 else 50, 0x80)
    ensures if t.Startpos == 0 then size == 0 && t.Length == 0 && t.Holds([], 0) && t.Index[1] == 0
            else
              && t.Length == WordsOf(pdos) && t.Holds(pdos, Taken(|pdos|))
              && size == Short(TotalBits(pdos[..Taken(|pdos|)]))
  {
    hide PdosAt, TotalBits, Categories;
    size := 0;
    t.Length := 0;
    Clear(t, pdos);
    t.Startpos := SiiFind(cache, slave, if tx > 0 then ECT_SII_PDO + 1 else ECT_SII_PDO, cats);
    if t.Startpos > 0 {
      t.Length := GetWord(cache, slave, t.Startpos);
      size := ReadPdos(cache, slave, t, t.Startpos + 2, pdos);
    }
  }
}
