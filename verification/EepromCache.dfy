/**
 * The cache in front of the slaves' EEPROMs (`ecx_siigetbyte`): one buffer for
 * the slave asked last, and a bitmap of the bytes that are in it.
 */
module EepromCache {
  import opened Sequences
  import opened Frames

  const EC_MAXEEPBITMAP: nat := 128
  const EC_MAXEEPBUF: nat := 32 * EC_MAXEEPBITMAP

  /** The EEPROM of a slave, and whether it is read eight bytes at a time or four. */
  datatype Eeprom = Eeprom(content: nat -> byte, eep8byte: bool) {
    function Width(): nat {
      if eep8byte then 8 else 4
    }

    /** The byte at an address, 0xff where the buffer does not reach. */
    function Byte(address: nat): byte {
      if address < EC_MAXEEPBUF then content(address) else 0xff
    }
  }

  /** A read for this address stays inside the buffer. */
  predicate Reachable(e: Eeprom, address: nat) {
    address < EC_MAXEEPBUF ==> address / 2 * 2 + e.Width() <= EC_MAXEEPBUF
  }

  ghost predicate Agrees(buf: seq<byte>, marks: seq<seq<bool>>, e: Eeprom)
    requires |buf| == EC_MAXEEPBUF && |marks| == EC_MAXEEPBITMAP && forall w :: 0 <= w < EC_MAXEEPBITMAP ==>
               |marks[w]| == 32
  {
    forall w, b :: 0 <= w < EC_MAXEEPBITMAP && 0 <= b < 32 && marks[w][b] ==> buf[32 * w + b] == e.content(32 * w + b)
  }

  class Cache {
    const slaves: nat -> Eeprom
    const esibuf: array<byte>
    const esimap: array<seq<bool>>
    var esislave: nat

    /** Everything the bitmap marks is what the EEPROM of the current slave holds. */
    ghost predicate Valid()
      reads this, esibuf, esimap
    {
      && esibuf.Length == EC_MAXEEPBUF && esimap.Length == EC_MAXEEPBITMAP
      && (forall w :: 0 <= w < EC_MAXEEPBITMAP ==> |esimap[w]| == 32)
      && Agrees(esibuf[..], esimap[..], slaves(esislave))
    }

    constructor (slaves: nat -> Eeprom)
      ensures Valid() && fresh(esibuf) && fresh(esimap) && this.slaves == slaves
    {
      this.slaves := slaves;
      esibuf := new byte[EC_MAXEEPBUF](_ => 0);
      esimap := new seq<bool>[EC_MAXEEPBITMAP](_ => Repeat(false, 32));
      esislave := 0;
    }

    /** Another slave: nothing is known. */
    method Select(slave: nat)
      requires Valid()
      modifies `esislave, esimap
      ensures Valid() && esislave == slave
      ensures slave == old(esislave) ==> esimap[..] == old(esimap[..])
      ensures slave != old(esislave) ==> forall w, b :: 0 <= w < EC_MAXEEPBITMAP && 0 <= b < 32 ==> !esimap[w][b]
    {
      if slave != esislave {
        forall w | 0 <= w < esimap.Length { esimap[w] := Repeat(false, 32); }
        esislave := slave;
      }
    }

    /** Reads from the slave into the buffer: `cnt` bytes from the even address `at` on. */
    method Fetch(at: nat, cnt: nat)
      requires Valid() && at % 2 == 0 && at + cnt <= EC_MAXEEPBUF
      modifies esibuf
      ensures Valid()
      ensures forall a :: at <= a < at + cnt ==> esibuf[a] == slaves(esislave).content(a)
    {
      var e := slaves(esislave);
      forall i | at <= i < at + cnt { esibuf[i] := e.content(i); }
    }

    /** Marks `cnt` bytes from `at` on, which the buffer holds. */
    method Mark(at: nat, cnt: nat)
      requires Valid() && at + cnt <= EC_MAXEEPBUF
      requires forall a :: at <= a < at + cnt ==> esibuf[a] == slaves(esislave).content(a)
      modifies esimap
      ensures Valid()
      ensures forall w, b :: 0 <= w < EC_MAXEEPBITMAP && 0 <= b < 32 ==>
                esimap[w][b] == (old(esimap[w][b]) || at <= 32 * w + b < at + cnt)
    {
      var mapw := at / 32;
      var mapb := at - 32 * mapw;
      for lp := 0 to cnt
        invariant 0 <= mapb < 32 && 0 <= mapw && 32 * mapw + mapb == at + lp
        invariant Valid()
        invariant forall w, b :: 0 <= w < EC_MAXEEPBITMAP && 0 <= b < 32 ==>
                    esimap[w][b] == (old(esimap[w][b]) || at <= 32 * w + b < at + lp)
      {
        esimap[mapw] := esimap[mapw][mapb := true];
        mapb := mapb + 1;
        if mapb > 31 {
          mapb := 0;
          mapw := mapw + 1;
        }
      }
    }

    /** The byte at this address is in the buffer. */
    ghost predicate Marked(address: nat)
      requires Valid() && address < EC_MAXEEPBUF
      reads this, esibuf, esimap
    {
      esimap[address / 32][address - 32 * (address / 32)]
    }

    /** One byte of the EEPROM of `slave`, from the buffer if it is there; then nothing is read. */
    method GetByte(slave: nat, address: nat) returns (retval: byte)
      requires Valid() && Reachable(slaves(slave), address)
      modifies `esislave, esibuf, esimap
      ensures Valid() && esislave == slave && retval == slaves(slave).Byte(address)
      ensures retval == if address < 0x1000 then slaves(slave).content(address) else 0xff
      ensures address < EC_MAXEEPBUF ==> Marked(address)
      ensures address < EC_MAXEEPBUF && !old(esislave == slave && Marked(address)) ==>
                var from := address - address % 2;
                forall a: nat :: a < EC_MAXEEPBUF ==>
                  (Marked(a) <==> old(esislave == slave && Marked(a))
                                  || from <= a < from + if slaves(slave).eep8byte then 8 else 4)
      ensures old(esislave == slave && address < EC_MAXEEPBUF && Marked(address)) ==>
                esibuf[..] == old(esibuf[..]) && esimap[..] == old(esimap[..])
    {
      retval := 0xff;
      Select(slave);
      if address < EC_MAXEEPBUF {
        var mapw := address / 32;
        var mapb := address - 32 * mapw;
        if !esimap[mapw][mapb] {
          var eadr := address / 2;
          var cnt := slaves(slave).Width();
          Fetch(2 * eadr, cnt);
          Mark(2 * eadr, cnt);
        }
        retval := esibuf[address];
        assert esimap[mapw][mapb];
      }
    }
  }
}
